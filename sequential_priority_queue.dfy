/**
 * The single-threaded baseline priority queue: a max-heap kept in a growable list,
 * rooted at index 0, where the parent of i is i / 2 and the children of i are 2i and
 * 2i + 1. The list starts with a sentinel entry that takes part in the ordering like
 * any other, and `remove` reads both children with no bounds check, so running off
 * the end of the list is an explicit result of the model.
 */
module SequentialHeap {
  import opened Wrappers

  /** One entry; `value` is Java's nullable `Integer`. */
  datatype Node = Node(value: Option<int>, priority: int)

  /** What `remove` yields: the removed value (null when the list was empty), or the exception. */
  datatype Removal = Returned(value: Option<int>) | IndexOutOfBounds

  /** The entry the constructor puts in the list: value 42, priority 1. */
  const Sentinel := Node(Some(42), 1)

  /** `getParent`: below every positive index, and the root is its own parent. */
  function Parent(i: int): (p: int)
    ensures 0 <= i ==> 0 <= p <= i
    ensures 1 <= i ==> p < i
  {
    i / 2
  }

  /** `getLeftChild`: its parent is i. */
  function LeftChild(i: int): (c: int)
    ensures Parent(c) == i
  {
    2 * i
  }

  /** `getRightChild`: one past the left child, and its parent is i. */
  function RightChild(i: int): (c: int)
    ensures c == LeftChild(i) + 1 && Parent(c) == i
  {
    2 * i + 1
  }

  // ---------------------------------------------------------------------------
  // Heap order
  // ---------------------------------------------------------------------------

  /** Entry i is no larger than its parent. */
  ghost predicate BelowParent(h: seq<Node>, i: int)
    requires 0 <= i < |h|
  {
    h[Parent(i)].priority >= h[i].priority
  }

  /** Max-heap order: every entry but the root is no larger than its parent. */
  ghost predicate MaxHeap(h: seq<Node>)
  {
    forall i :: 1 <= i < |h| ==> BelowParent(h, i)
  }

  /** Under max-heap order the root has the largest priority. */
  lemma {:induction false} RootIsMax(h: seq<Node>, i: int)
    requires MaxHeap(h) && 0 <= i < |h|
    ensures h[i].priority <= h[0].priority
    decreases i
  {
    if i > 0 {
      assert BelowParent(h, i);
      RootIsMax(h, Parent(i));
    }
  }

  /** The parent of k is no smaller than entry c (used for the children c of k). */
  ghost predicate GrandparentCovers(h: seq<Node>, k: int, c: int)
    requires 0 <= k < |h| && 0 <= c < |h|
  {
    h[Parent(k)].priority >= h[c].priority
  }

  /**
   * Order holds on every edge except the one from k up to its parent, and k's parent
   * is no smaller than k's children.
   */
  ghost predicate OrderedExceptUp(h: seq<Node>, k: int)
  {
    && (forall i :: 1 <= i < |h| && i != k ==> BelowParent(h, i))
    && (1 <= k < |h| ==> forall c :: 1 <= c < |h| && Parent(c) == k ==> GrandparentCovers(h, k, c))
  }

  /**
   * Order holds on every edge except those from k down to its children, and k's parent
   * is no smaller than k's children.
   */
  ghost predicate OrderedExceptDown(h: seq<Node>, k: int)
  {
    && (forall i :: 1 <= i < |h| && Parent(i) != k ==> BelowParent(h, i))
    && (1 <= k < |h| ==> forall c :: 1 <= c < |h| && Parent(c) == k ==> GrandparentCovers(h, k, c))
  }

  /** Slot k has both children, and neither has a higher priority: the sift-down stops there. */
  ghost predicate RestsAt(h: seq<Node>, k: int)
    requires 0 <= k
  {
    && RightChild(k) < |h|
    && h[LeftChild(k)].priority <= h[k].priority && h[RightChild(k)].priority <= h[k].priority
  }

  /** A new entry appended to a heap in order violates at most the edge to its parent. */
  lemma AppendOrderedExceptUp(h: seq<Node>, x: Node)
    requires MaxHeap(h) && |h| >= 1
    ensures OrderedExceptUp(h + [x], |h|)
  {
    var t := h + [x];
    forall i | 1 <= i < |t| && i != |h|
      ensures BelowParent(t, i)
    {
      assert BelowParent(h, i);
    }
  }

  /** Swapping the climbing entry at k with a smaller parent moves the gap up to the parent. */
  lemma SiftUpStep(h: seq<Node>, k: int)
    requires 1 <= k < |h| && OrderedExceptUp(h, k)
    requires h[Parent(k)].priority < h[k].priority
    ensures OrderedExceptUp(h[Parent(k) := h[k]][k := h[Parent(k)]], Parent(k))
  {
    var p := Parent(k);
    var t := h[p := h[k]][k := h[p]];
    forall i | 1 <= i < |t| && i != p
      ensures BelowParent(t, i)
    {
      if Parent(i) == p && i != k {
        assert BelowParent(h, i);
      } else if Parent(i) == k && i != k {
        assert GrandparentCovers(h, k, i);
      } else if i != k && Parent(i) != k {
        assert BelowParent(h, i);
        assert t[Parent(i)] == h[Parent(i)] && t[i] == h[i];
      }
    }
    if 1 <= p {
      forall c | 1 <= c < |t| && Parent(c) == p
        ensures GrandparentCovers(t, p, c)
      {
        assert BelowParent(h, p);
        if c != k {
          assert BelowParent(h, c);
        }
      }
    }
  }

  /** The climb ends at the root or below a parent no smaller than the new entry. */
  lemma SiftUpDone(h: seq<Node>, k: int)
    requires 0 <= k < |h| && OrderedExceptUp(h, k)
    requires k == 0 || h[Parent(k)].priority >= h[k].priority
    ensures MaxHeap(h)
  {
    assert k >= 1 ==> BelowParent(h, k);
  }

  /** The last entry moved into the root's place violates at most the edges below the root. */
  lemma LastToRootOrderedExceptDown(h: seq<Node>)
    requires MaxHeap(h) && |h| >= 1
    ensures OrderedExceptDown(h[0 := h[|h| - 1]][..|h| - 1], 0)
  {
    var t := h[0 := h[|h| - 1]][..|h| - 1];
    forall i | 1 <= i < |t| && Parent(i) != 0
      ensures BelowParent(t, i)
    {
      assert BelowParent(h, i);
    }
  }

  /** The same fact for any list, conditional on heap order. */
  lemma LastToRootOrdered(h: seq<Node>)
    requires |h| >= 1
    ensures MaxHeap(h) ==> OrderedExceptDown(h[0 := h[|h| - 1]][..|h| - 1], 0)
  {
    if MaxHeap(h) {
      LastToRootOrderedExceptDown(h);
    }
  }

  /** Exchanging two entries keeps the multiset of entries. */
  lemma SwapMultiset(h: seq<Node>, i: int, j: int)
    requires 0 <= i < |h| && 0 <= j < |h|
    ensures multiset(h[i := h[j]][j := h[i]]) == multiset(h)
  {
    if i != j {
      calc {
        multiset(h[i := h[j]][j := h[i]]);
        multiset(h[i := h[j]]) - multiset{h[i := h[j]][j]} + multiset{h[i]};
        multiset(h) - multiset{h[i]} + multiset{h[j]} - multiset{h[j]} + multiset{h[i]};
        multiset(h);
      }
    } else {
      assert h[i := h[j]][j := h[i]] == h;
    }
  }

  /** Moving the last entry into the root and dropping the last slot removes the root. */
  lemma LastToRootMultiset(h: seq<Node>)
    requires |h| >= 1
    ensures multiset(h[0 := h[|h| - 1]][..|h| - 1]) == multiset(h) - multiset{h[0]}
  {
    var t := h[0 := h[|h| - 1]][..|h| - 1];
    if |h| >= 2 {
      assert t == [h[|h| - 1]] + h[1..|h| - 1];
      assert h == [h[0]] + h[1..|h| - 1] + [h[|h| - 1]];
    }
  }

  /**
   * Swapping the sinking entry at k with its child c, no smaller than the other child
   * and larger than the entry, moves the gap down to c.
   */
  lemma SiftDownStep(h: seq<Node>, k: int, c: int)
    requires 0 <= k && OrderedExceptDown(h, k)
    requires RightChild(k) < |h| && c != k && (c == LeftChild(k) || c == RightChild(k))
    requires h[c].priority > h[k].priority
    requires h[c].priority >= h[LeftChild(k)].priority && h[c].priority >= h[RightChild(k)].priority
    ensures OrderedExceptDown(h[c := h[k]][k := h[c]], c)
  {
    var t := h[c := h[k]][k := h[c]];
    forall i | 1 <= i < |t| && Parent(i) != c
      ensures BelowParent(t, i)
    {
      if Parent(i) == k {
        assert i == LeftChild(k) || i == RightChild(k);
      } else if i == k {
        assert GrandparentCovers(h, k, c);
      } else {
        assert BelowParent(h, i);
        assert t[Parent(i)] == h[Parent(i)] && t[i] == h[i];
      }
    }
    forall d | 1 <= d < |t| && Parent(d) == c
      ensures GrandparentCovers(t, c, d)
    {
      assert BelowParent(h, d);
      assert t[d] == h[d];
    }
  }

  /** The sinking entry stops once neither child is larger: heap order is restored. */
  lemma SiftDownDone(h: seq<Node>, k: int)
    requires 0 <= k && OrderedExceptDown(h, k) && RestsAt(h, k)
    ensures MaxHeap(h)
  {
    forall i | 1 <= i < |h| && Parent(i) == k
      ensures BelowParent(h, i)
    {
      assert i == LeftChild(k) || i == RightChild(k);
    }
  }

  // ---------------------------------------------------------------------------
  // The paths the two loops take
  // ---------------------------------------------------------------------------

  /**
   * The climb of `insert` from slot k: while k is not the root and its parent has a
   * strictly lower priority, the two swap and the climb goes on from the parent.
   */
  ghost function Climb(h: seq<Node>, k: nat): seq<Node>
    requires k < |h|
    decreases k
  {
    if k == 0 || !(h[Parent(k)].priority < h[k].priority) then h
    else Climb(h[Parent(k) := h[k]][k := h[Parent(k)]], Parent(k))
  }

  /** The climb keeps the nodes, and turns an order broken only above k into a max-heap. */
  lemma {:induction false} ClimbResult(h: seq<Node>, k: nat)
    requires k < |h|
    ensures |Climb(h, k)| == |h| && multiset(Climb(h, k)) == multiset(h)
    ensures OrderedExceptUp(h, k) ==> MaxHeap(Climb(h, k))
    decreases k
  {
    if k == 0 || !(h[Parent(k)].priority < h[k].priority) {
      if OrderedExceptUp(h, k) {
        SiftUpDone(h, k);
      }
    } else {
      if OrderedExceptUp(h, k) {
        SiftUpStep(h, k);
      }
      SwapMultiset(h, Parent(k), k);
      ClimbResult(h[Parent(k) := h[k]][k := h[Parent(k)]], Parent(k));
    }
  }

  /** Where the sift-down of `remove` leaves the list, the slot the sinking node ends in, and whether the loop ended without an exception. */
  datatype Sunk = Sunk(heap: seq<Node>, index: int, completed: bool)

  /**
   * The sift-down of `remove` from slot k. Reading a child slot past the end throws,
   * and the right child is always read. The loop stops when neither child has a
   * strictly higher priority; otherwise the node swaps with the strictly higher child,
   * and with the left one when the two are equal.
   */
  ghost function Sink(h: seq<Node>, k: nat): Sunk
    decreases |h| - k
  {
    var left, right := LeftChild(k), RightChild(k);
    if right >= |h| then Sunk(h, k, false)
    else if !(h[left].priority > h[k].priority || h[right].priority > h[k].priority) then Sunk(h, k, true)
    else
      var child :=
        if h[left].priority > h[right].priority then left
        else if h[right].priority > h[left].priority then right
        else left;
      Sink(h[child := h[k]][k := h[child]], child)
  }

  /**
   * The sift-down keeps the nodes and leaves the sinking node at the slot it ends in.
   * It completes exactly when that slot has both children, neither of them higher. A
   * disorder only below k becomes a disorder only below that slot, and a max-heap when
   * the loop completes.
   */
  lemma {:induction false} SinkResult(h: seq<Node>, k: nat)
    requires k == 0 || k < |h|
    ensures |Sink(h, k).heap| == |h| && multiset(Sink(h, k).heap) == multiset(h)
    ensures k <= Sink(h, k).index && (Sink(h, k).index == 0 || Sink(h, k).index < |h|)
    ensures |h| > 0 ==> Sink(h, k).heap[Sink(h, k).index] == h[k]
    ensures Sink(h, k).completed <==> RightChild(Sink(h, k).index) < |h|
    ensures Sink(h, k).completed ==> RestsAt(Sink(h, k).heap, Sink(h, k).index)
    ensures OrderedExceptDown(h, k) ==> OrderedExceptDown(Sink(h, k).heap, Sink(h, k).index)
    ensures OrderedExceptDown(h, k) && Sink(h, k).completed ==> MaxHeap(Sink(h, k).heap)
    decreases |h| - k
  {
    var left, right := LeftChild(k), RightChild(k);
    if right >= |h| {
    } else if !(h[left].priority > h[k].priority || h[right].priority > h[k].priority) {
      if OrderedExceptDown(h, k) {
        SiftDownDone(h, k);
      }
    } else {
      var child :=
        if h[left].priority > h[right].priority then left
        else if h[right].priority > h[left].priority then right
        else left;
      if OrderedExceptDown(h, k) {
        SiftDownStep(h, k, child);
      }
      SwapMultiset(h, child, k);
      SinkResult(h[child := h[k]][k := h[child]], child);
    }
  }

  /** The node with priority p and no value. */
  function Prio(p: int): Node
  {
    Node(None, p)
  }

  /** The sift-down walk on 7, 18, 10, 16, 8, 2, 4, 6: the 7 rests at slot 3, above 4 and 6. */
  lemma SinkWalkExample()
    ensures Sink([Prio(7), Prio(18), Prio(10), Prio(16), Prio(8), Prio(2), Prio(4), Prio(6)], 0)
      == Sunk([Prio(18), Prio(16), Prio(10), Prio(7), Prio(8), Prio(2), Prio(4), Prio(6)], 3, true)
  {
    var t0 := [Prio(7), Prio(18), Prio(10), Prio(16), Prio(8), Prio(2), Prio(4), Prio(6)];
    var t1 := [Prio(18), Prio(7), Prio(10), Prio(16), Prio(8), Prio(2), Prio(4), Prio(6)];
    assert t0[1 := t0[0]][0 := t0[1]] == t1;
    assert Sink(t0, 0) == Sink(t1, 1);
    var t2 := [Prio(18), Prio(16), Prio(10), Prio(7), Prio(8), Prio(2), Prio(4), Prio(6)];
    assert t1[3 := t1[1]][1 := t1[3]] == t2;
    assert Sink(t1, 1) == Sink(t2, 3);
  }

  /**
   * A max-heap on which `remove` returns: of priorities 20, 18, 10, 16, 8, 2, 4, 6, 7,
   * the moved 7 sinks to slot 1, then to slot 3, whose children 4 and 6 are lower.
   */
  lemma SinkReturnsExample()
    ensures var h := [Prio(20), Prio(18), Prio(10), Prio(16), Prio(8), Prio(2), Prio(4), Prio(6), Prio(7)];
      MaxHeap(h) &&
      Sink(LastToFront(h), 0) == Sunk([Prio(18), Prio(16), Prio(10), Prio(7), Prio(8), Prio(2), Prio(4), Prio(6)], 3, true)
  {
    var h := [Prio(20), Prio(18), Prio(10), Prio(16), Prio(8), Prio(2), Prio(4), Prio(6), Prio(7)];
    assert forall i :: 1 <= i < |h| ==> BelowParent(h, i);
    var t0 := [Prio(7), Prio(18), Prio(10), Prio(16), Prio(8), Prio(2), Prio(4), Prio(6)];
    assert h[0 := h[|h| - 1]][..|h| - 1] == t0;
    SinkWalkExample();
  }

  /**
   * A max-heap on which `remove` throws: of priorities 3, 2, 1, the moved 1 sinks to
   * slot 1, which has no right child.
   */
  lemma SinkThrowsExample()
    ensures var h := [Prio(3), Prio(2), Prio(1)];
      MaxHeap(h) && Sink(LastToFront(h), 0) == Sunk([Prio(2), Prio(1)], 1, false)
  {
    var h := [Prio(3), Prio(2), Prio(1)];
    assert forall i :: 1 <= i < |h| ==> BelowParent(h, i);
    assert LastToFront(h) == [Prio(1), Prio(2)];
    assert Sink([Prio(1), Prio(2)], 0) == Sink([Prio(2), Prio(1)], 1);
  }

  /**
   * The first step of `remove`: the last node takes the front slot and the last slot
   * goes. The list loses exactly its front node, and a max-heap is left out of order
   * only below the front.
   */
  function LastToFront(h: seq<Node>): (t: seq<Node>)
    requires |h| >= 1
    ensures |t| == |h| - 1 && (t != [] ==> t[0] == h[|h| - 1])
    ensures forall i :: 1 <= i < |t| ==> t[i] == h[i]
    ensures multiset(t) == multiset(h) - multiset{h[0]}
    ensures MaxHeap(h) ==> OrderedExceptDown(t, 0)
  {
    LastToRootMultiset(h);
    LastToRootOrdered(h);
    h[0 := h[|h| - 1]][..|h| - 1]
  }

  // ---------------------------------------------------------------------------
  // The queue object
  // ---------------------------------------------------------------------------

  class PriorityQueue {
    var heap: seq<Node>

    /** A one-entry list holding the sentinel, which is a heap. */
    constructor ()
      ensures heap == [Sentinel] && MaxHeap(heap)
    {
      heap := [Sentinel];
    }

    /**
     * Appends the entry and lets it climb while its parent has a smaller priority: the
     * list ends as `Climb` leaves it, with one entry more, the same entries plus the new
     * one, and heap order kept.
     */
    method Insert(value: Option<int>, priority: int)
      modifies this
      ensures old(heap) == [] ==> heap == [Node(value, priority)]
      ensures old(heap) != [] ==> heap == Climb(old(heap) + [Node(value, priority)], |old(heap)|)
      ensures |heap| == |old(heap)| + 1
      ensures multiset(heap) == multiset(old(heap)) + multiset{Node(value, priority)}
      ensures MaxHeap(old(heap)) ==> MaxHeap(heap)
    {
      // An empty list just takes the node
      if |heap| == 0 {
        heap := heap + [Node(value, priority)];
        return;
      }

      // Append the node, then let it climb
      var newNode := Node(value, priority);
      if MaxHeap(heap) {
        AppendOrderedExceptUp(heap, newNode);
      }
      heap := heap + [newNode];
      ghost var appended := heap;
      var index := |heap| - 1;
      var parentIndex := Parent(index);
      ClimbResult(appended, index);
      while index != 0 && heap[parentIndex].priority < priority
        invariant 0 <= index < |heap| && parentIndex == Parent(index)
        invariant heap[index] == newNode
        invariant Climb(heap, index) == Climb(appended, |appended| - 1)
        decreases index
      {
        // Exchange the node with its lower-priority parent
        var temp := heap[parentIndex];
        heap := heap[parentIndex := newNode];
        heap := heap[index := temp];

        index := parentIndex;
        parentIndex := Parent(index);
      }
    }

    /**
     * Takes the root off: the last entry replaces it and sinks as `Sink` says. Reading a
     * child past the end of the list raises the exception, after the root has already
     * been removed. `stop` is the slot where the moved entry comes to rest.
     */
    method Remove() returns (r: Removal, ghost stop: int)
      modifies this
      ensures old(heap) == [] ==> r == Returned(None) && heap == []
      ensures old(heap) != [] ==> Sink(LastToFront(old(heap)), 0) == Sunk(heap, stop, r.Returned?)
      ensures old(heap) != [] ==>
        && |heap| == |old(heap)| - 1
        && multiset(heap) == multiset(old(heap)) - multiset{old(heap)[0]}
      ensures old(heap) != [] && r.Returned? ==> r.value == old(heap)[0].value
      ensures 0 <= stop && (2 <= |old(heap)| ==> stop < |heap|)
      ensures 2 <= |old(heap)| ==> heap[stop] == old(heap)[|old(heap)| - 1]
      ensures old(heap) != [] ==> (r.Returned? <==> RightChild(stop) < |heap|)
      ensures old(heap) != [] && r.Returned? ==> RestsAt(heap, stop)
      ensures 1 <= |old(heap)| <= 2 ==> r == IndexOutOfBounds
      ensures MaxHeap(old(heap)) ==> OrderedExceptDown(heap, stop)
      ensures MaxHeap(old(heap)) && r.Returned? ==> MaxHeap(heap)
    {
      stop := 0;
      // An empty list yields null
      if |heap| == 0 {
        return Returned(None), stop;
      }

      var returnNode := heap[0];
      LastToRoot();

      // Sink the new root
      var completed;
      completed, stop := SiftDown();
      if !completed {
        return IndexOutOfBounds, stop;
      }
      return Returned(returnNode.value), stop;
    }

    /**
     * The first step of `remove`: the last entry takes the root's place and the last slot
     * goes, so the list loses exactly its root and heap order can fail only below the root.
     */
    method LastToRoot()
      requires heap != []
      modifies this
      ensures heap == LastToFront(old(heap))
      ensures multiset(heap) == multiset(old(heap)) - multiset{old(heap)[0]}
      ensures MaxHeap(old(heap)) ==> OrderedExceptDown(heap, 0)
    {
      heap := heap[0 := heap[|heap| - 1]][..|heap| - 1];
    }

    /**
     * The sift-down loop of `remove`: the entry at the root swaps with a strictly higher
     * child (the left one on ties) until neither child is higher. False when a read
     * would run past the end of the list, which raises the exception. The loop ends as
     * `Sink` says, with the entry at slot `stop`.
     */
    method SiftDown() returns (completed: bool, ghost stop: int)
      modifies this
      ensures Sink(old(heap), 0) == Sunk(heap, stop, completed)
      ensures |heap| == |old(heap)| && multiset(heap) == multiset(old(heap))
      ensures 0 <= stop && (stop == 0 || stop < |heap|)
      ensures |heap| > 0 ==> heap[stop] == old(heap)[0]
      ensures completed <==> RightChild(stop) < |heap|
      ensures completed ==> RestsAt(heap, stop)
      ensures OrderedExceptDown(old(heap), 0) ==> OrderedExceptDown(heap, stop)
      ensures OrderedExceptDown(old(heap), 0) && completed ==> MaxHeap(heap)
    {
      SinkResult(heap, 0);
      var index := 0;
      var leftChildIndex, rightChildIndex := LeftChild(0), RightChild(0);
      while true
        invariant 0 <= index && leftChildIndex == LeftChild(index) && rightChildIndex == RightChild(index)
        invariant Sink(heap, index) == Sink(old(heap), 0)
        decreases |heap| - index
      {
        // A child slot past the end of the list: `get` throws
        if leftChildIndex >= |heap| || rightChildIndex >= |heap| {
          return false, index;
        }
        // Stop once neither child outranks the sinking entry
        if !(heap[leftChildIndex].priority > heap[index].priority || heap[rightChildIndex].priority > heap[index].priority) {
          break;
        }
        var child;
        if heap[leftChildIndex].priority > heap[rightChildIndex].priority {
          child := leftChildIndex;
        } else if heap[rightChildIndex].priority > heap[leftChildIndex].priority {
          child := rightChildIndex;
        } else {
          // A tie goes to the left child
          child := leftChildIndex;
        }
        var temp := heap[child];
        heap := heap[child := heap[index]];
        heap := heap[index := temp];
        index := child;
        leftChildIndex := LeftChild(index);
        rightChildIndex := RightChild(index);
      }
      return true, index;
    }
  }
}
