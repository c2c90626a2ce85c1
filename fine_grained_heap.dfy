/**
 * The fine-grained-lock binary min-heap of Hunt, Michael, Parthasarathy and Scott
 * ("An efficient algorithm for concurrent priority queue heaps"), run one operation
 * at a time: the heap lock and the per-slot locks are erased, and the identity of the
 * calling thread, used as the owner tag of a slot being inserted, is the constant `Me`.
 */
module FineGrainedHeap {
  import opened Wrappers

  /** `MAX_LENGTH`: the slot array has MaxLength + 1 entries and slot 0 is never used. */
  const MaxLength: int := 100

  /** The owner token that stands for `Thread.currentThread().getId()`. */
  const Me: nat := 1

  /** The three-way slot tag: EMPTY (-2), AVAILABLE (-1), or owned by an inserting operation. */
  datatype Tag = Empty | Available | Owned(token: nat)

  /** One heap node (its lock erased); `value` is Java's nullable `Integer`. */
  datatype Slot = Slot(value: Option<int>, priority: int, tag: Tag)

  /** What `new Node()` holds: no value, priority 0, tag EMPTY. */
  const EmptySlot := Slot(None, 0, Empty)

  // ---------------------------------------------------------------------------
  // Specification on sequences of slots; n is `nextIndex`, the first free slot.
  // ---------------------------------------------------------------------------

  /** The priorities of the slots, position by position. */
  function Keys(s: seq<Slot>): (q: seq<int>)
    ensures |q| == |s| && forall i :: 0 <= i < |s| ==> q[i] == s[i].priority
  {
    seq(|s|, i requires 0 <= i < |s| => s[i].priority)
  }

  /** The multiset of priorities held in the occupied slots 1 .. n-1. */
  ghost function Priorities(s: seq<Slot>, n: int): multiset<int>
    requires 1 <= n <= |s|
  {
    multiset(Keys(s)[1..n])
  }

  /** Occupying one more slot adds its priority. */
  lemma PrioritiesExtend(s: seq<Slot>, n: int)
    requires 1 <= n < |s|
    ensures Priorities(s, n + 1) == Priorities(s, n) + multiset{s[n].priority}
  {
    assert Keys(s)[1..n + 1] == Keys(s)[1..n] + [s[n].priority];
  }

  /** Overwriting an occupied slot trades its priority for the new one; other slots do not count. */
  lemma PrioritiesUpdate(s: seq<Slot>, n: int, i: int, x: Slot)
    requires 1 <= n <= |s| && 0 <= i < |s|
    ensures 1 <= i < n ==>
      Priorities(s[i := x], n) + multiset{s[i].priority} == Priorities(s, n) + multiset{x.priority}
    ensures !(1 <= i < n) ==> Priorities(s[i := x], n) == Priorities(s, n)
  {
    var q := Keys(s);
    assert Keys(s[i := x]) == q[i := x.priority];
    if 1 <= i < n {
      assert q[i := x.priority][1..n] == q[1..n][i - 1 := x.priority];
    } else {
      assert q[i := x.priority][1..n] == q[1..n];
    }
  }

  /** Exchanging two occupied slots keeps the multiset of priorities. */
  lemma PrioritiesSwap(s: seq<Slot>, n: int, i: int, j: int)
    requires 1 <= n <= |s| && 1 <= i < n && 1 <= j < n
    ensures Priorities(s[i := s[j]][j := s[i]], n) == Priorities(s, n)
  {
    if i != j {
      var s1 := s[i := s[j]];
      PrioritiesUpdate(s, n, i, s[j]);
      PrioritiesUpdate(s1, n, j, s[i]);
      var b := Priorities(s1[j := s[i]], n);
      assert b + multiset{s[j].priority} == Priorities(s, n) + multiset{s[j].priority};
      calc {
        b;
        (b + multiset{s[j].priority}) - multiset{s[j].priority};
        (Priorities(s, n) + multiset{s[j].priority}) - multiset{s[j].priority};
        Priorities(s, n);
      }
    } else {
      assert s[i := s[j]][j := s[i]] == s;
    }
  }

  /** The edge from slot i up to its parent, slot i / 2, is in min-heap order. */
  ghost predicate EdgeInOrder(s: seq<Slot>, i: int)
    requires 1 <= i < |s|
  {
    s[i / 2].priority <= s[i].priority
  }

  /** Min-heap order over the occupied slots 1 .. n-1. */
  ghost predicate HeapOrdered(s: seq<Slot>, n: int)
    requires n <= |s|
  {
    forall i :: 1 < i < n ==> EdgeInOrder(s, i)
  }

  /**
   * Slot i is AVAILABLE when occupied (1 <= i < n) and EMPTY otherwise, the unused slot 0
   * included, and holds no value: `insert` never stores its `value` argument.
   */
  ghost predicate SlotSettled(s: seq<Slot>, n: int, i: int)
    requires 0 <= i < |s|
  {
    s[i].tag == (if 1 <= i < n then Available else Empty) && s[i].value == None
  }

  /** Every slot is settled. */
  ghost predicate TagsSettled(s: seq<Slot>, n: int)
  {
    forall i :: 0 <= i < |s| ==> SlotSettled(s, n, i)
  }

  /** Under settled tags, a slot is occupied exactly when it is not EMPTY. */
  lemma Occupied(s: seq<Slot>, n: int, i: int)
    requires TagsSettled(s, n) && 0 <= i < |s|
    ensures s[i].tag != Empty <==> 1 <= i < n
  {
    assert SlotSettled(s, n, i);
  }

  /** The state between operations: every slot settled, and heap order. */
  ghost predicate Settled(s: seq<Slot>, n: int)
    requires n <= |s|
  {
    TagsSettled(s, n) && HeapOrdered(s, n)
  }

  /** Under heap order no occupied slot is smaller than the root. */
  lemma {:induction false} RootIsMin(s: seq<Slot>, n: int, i: int)
    requires n <= |s| && HeapOrdered(s, n) && 1 <= i < n
    ensures s[1].priority <= s[i].priority
    decreases i
  {
    if i > 1 {
      assert EdgeInOrder(s, i);
      RootIsMin(s, n, i / 2);
    }
  }

  /** x is an element of m and no element of m is smaller. */
  ghost predicate IsMinimum(x: int, m: multiset<int>)
  {
    x in m && forall y :: y in m ==> x <= y
  }

  /** Under heap order the root's priority is the minimum of the multiset. */
  lemma RootIsMinimum(s: seq<Slot>, n: int)
    requires 1 < n <= |s| && HeapOrdered(s, n)
    ensures IsMinimum(s[1].priority, Priorities(s, n))
  {
    var q := Keys(s)[1..n];
    assert q[0] == s[1].priority;
    forall x | x in Priorities(s, n)
      ensures s[1].priority <= x
    {
      var j :| 0 <= j < |q| && q[j] == x;
      RootIsMin(s, n, j + 1);
    }
  }

  // ---------------------------------------------------------------------------
  // Sift-up (`insert`)
  // ---------------------------------------------------------------------------

  /**
   * Order holds on every edge except the one from k to its parent, and k's parent is
   * no larger than k's children.
   */
  ghost predicate OrderedExceptUp(s: seq<Slot>, n: int, k: int)
    requires n <= |s|
  {
    && (forall i :: 1 < i < n && i != k ==> EdgeInOrder(s, i))
    && (k > 1 ==> forall i :: 1 < i < n && i / 2 == k ==> s[k / 2].priority <= s[i].priority)
  }

  /** The state inside `insert`'s loop while the new entry at k is still tagged by this operation. */
  ghost predicate Climbing(s: seq<Slot>, n: int, k: int)
  {
    && 1 <= k < n <= |s|
    && (forall i :: 0 <= i < |s| && i != k ==> SlotSettled(s, n, i))
    && s[k].tag == Owned(Me) && s[k].value == None
    && (k > 1 ==> s[k / 2].tag == Available)
    && OrderedExceptUp(s, n, k)
  }

  /** Stamping the first free slot with the priority and this operation's tag starts the climb. */
  lemma ClimbStart(s: seq<Slot>, n: int, p: int)
    requires 1 <= n < |s| && Settled(s, n)
    ensures Climbing(s[n := s[n].(priority := p, tag := Owned(Me))], n + 1, n)
    ensures Priorities(s[n := s[n].(priority := p, tag := Owned(Me))], n + 1) == Priorities(s, n) + multiset{p}
  {
    var t := s[n := s[n].(priority := p, tag := Owned(Me))];
    forall i | 1 < i < n + 1 && i != n
      ensures EdgeInOrder(t, i)
    {
      assert EdgeInOrder(s, i);
    }
    var m := n + 1;
    forall i | 0 <= i < |t| && i != n
      ensures SlotSettled(t, m, i)
    {
      assert SlotSettled(s, n, i);
    }
    assert SlotSettled(s, n, n);
    if n > 1 {
      assert SlotSettled(s, n, n / 2);
    }
    PrioritiesUpdate(s, n, n, t[n]);
    PrioritiesExtend(t, n);
  }

  /** Swapping the climbing entry with a larger parent moves it up one level. */
  lemma ClimbSwap(s: seq<Slot>, n: int, k: int)
    requires Climbing(s, n, k) && k > 1 && s[k / 2].priority > s[k].priority
    ensures Climbing(s[k / 2 := s[k]][k := s[k / 2]], n, k / 2)
    ensures Priorities(s[k / 2 := s[k]][k := s[k / 2]], n) == Priorities(s, n)
  {
    var p := k / 2;
    var t := s[p := s[k]][k := s[p]];
    forall i | 1 < i < n && i != p
      ensures EdgeInOrder(t, i)
    {
      if i / 2 == p && i != k {
        assert EdgeInOrder(s, i);
      } else if i != k && i / 2 != k {
        assert EdgeInOrder(s, i);
        assert t[i / 2] == s[i / 2] && t[i] == s[i];
      }
    }
    if p > 1 {
      forall i | 1 < i < n && i / 2 == p
        ensures t[p / 2].priority <= t[i].priority
      {
        assert EdgeInOrder(s, p);
        if i != k {
          assert EdgeInOrder(s, i);
        }
      }
    }
    forall i | 0 <= i < |t| && i != p
      ensures SlotSettled(t, n, i)
    {
      assert SlotSettled(s, n, if i == k then p else i);
    }
    if p > 1 {
      assert SlotSettled(s, n, p / 2);
    }
    PrioritiesSwap(s, n, p, k);
  }

  /** At the root, or below a parent no larger than it, the climbing entry becomes AVAILABLE. */
  lemma ClimbSettle(s: seq<Slot>, n: int, k: int)
    requires Climbing(s, n, k) && (k == 1 || s[k / 2].priority <= s[k].priority)
    ensures Settled(s[k := s[k].(tag := Available)], n)
    ensures Priorities(s[k := s[k].(tag := Available)], n) == Priorities(s, n)
  {
    var t := s[k := s[k].(tag := Available)];
    forall i | 1 < i < n
      ensures EdgeInOrder(t, i)
    {
      if i != k {
        assert EdgeInOrder(s, i);
      }
    }
    forall i | 0 <= i < |t|
      ensures SlotSettled(t, n, i)
    {
      if i != k {
        assert SlotSettled(s, n, i);
      }
    }
    PrioritiesUpdate(s, n, k, s[k].(tag := Available));
    var b := Priorities(s[k := s[k].(tag := Available)], n);
    calc {
      b;
      (b + multiset{s[k].priority}) - multiset{s[k].priority};
      (Priorities(s, n) + multiset{s[k].priority}) - multiset{s[k].priority};
      Priorities(s, n);
    }
  }

  // ---------------------------------------------------------------------------
  // Sift-down (`deleteMin`)
  // ---------------------------------------------------------------------------

  /**
   * Order holds on every edge except those from k to its children, and k's parent is
   * no larger than k's children.
   */
  ghost predicate OrderedExceptDown(s: seq<Slot>, n: int, k: int)
    requires n <= |s|
  {
    && (forall i :: 1 < i < n && i / 2 != k ==> EdgeInOrder(s, i))
    && (k > 1 ==> forall i :: 1 < i < n && i / 2 == k ==> s[k / 2].priority <= s[i].priority)
  }

  /** The state inside `deleteMin`'s loop while the moved entry sinks from k. */
  ghost predicate Sinking(s: seq<Slot>, n: int, k: int)
  {
    && 1 <= k < n <= |s|
    && TagsSettled(s, n)
    && OrderedExceptDown(s, n, k)
  }

  /** The root tagged EMPTY and exchanged with the last entry, slot n-1. */
  function RootToLast(s: seq<Slot>, n: int): (t: seq<Slot>)
    requires 2 <= n <= |s|
    ensures |t| == |s| && t[n - 1] == s[1].(tag := Empty)
  {
    var u := s[1 := s[1].(tag := Empty)];
    u[1 := u[n - 1]][n - 1 := u[1]]
  }

  /** Moving the root to the last slot removes one copy of the root's priority from slots 1 .. n-2. */
  lemma RootToLastPriorities(s: seq<Slot>, n: int)
    requires 2 <= n <= |s|
    ensures Priorities(RootToLast(s, n), n - 1) == Priorities(s, n) - multiset{s[1].priority}
  {
    var t := RootToLast(s, n);
    if n == 2 {
      assert Keys(s)[1..n] == [s[1].priority];
    } else {
      assert t == s[1 := s[n - 1]][n - 1 := s[1].(tag := Empty)];
      PrioritiesUpdate(s, n - 1, 1, s[n - 1]);
      PrioritiesUpdate(s[1 := s[n - 1]], n - 1, n - 1, s[1].(tag := Empty));
      PrioritiesExtend(s, n - 1);
      var b := Priorities(t, n - 1);
      calc {
        b;
        (b + multiset{s[1].priority}) - multiset{s[1].priority};
        (Priorities(s, n - 1) + multiset{s[n - 1].priority}) - multiset{s[1].priority};
        Priorities(s, n) - multiset{s[1].priority};
      }
    }
  }

  /** Removing the only entry leaves every slot EMPTY. */
  lemma RootToLastSingle(s: seq<Slot>)
    requires 2 <= |s| && Settled(s, 2)
    ensures Settled(RootToLast(s, 2), 1)
  {
    var t := RootToLast(s, 2);
    assert t == s[1 := s[1].(tag := Empty)];
    forall i | 0 <= i < |t|
      ensures SlotSettled(t, 1, i)
    {
      assert SlotSettled(s, 2, i);
    }
  }

  /** With more than one entry, the former last entry starts sinking from the root. */
  lemma RootToLastSinks(s: seq<Slot>, n: int)
    requires 2 < n <= |s| && Settled(s, n)
    ensures Sinking(RootToLast(s, n), n - 1, 1)
    ensures RootToLast(s, n)[1].tag == Available
  {
    var t, m := RootToLast(s, n), n - 1;
    forall i | 0 <= i < |t|
      ensures SlotSettled(t, m, i)
    {
      assert SlotSettled(s, n, if i == 1 then n - 1 else if i == n - 1 then 1 else i);
    }
    assert SlotSettled(t, m, 1);
    forall i | 1 < i < n - 1 && i / 2 != 1
      ensures EdgeInOrder(t, i)
    {
      assert EdgeInOrder(s, i);
      assert t[i / 2] == s[i / 2] && t[i] == s[i];
    }
  }

  /** Swapping the sinking entry with its smallest child c, when c is smaller, moves it down one level. */
  lemma SinkSwap(s: seq<Slot>, n: int, k: int, c: int)
    requires Sinking(s, n, k) && (c == 2 * k || c == 2 * k + 1) && c < n
    requires s[c].priority < s[k].priority
    requires s[c].priority <= s[2 * k].priority && (2 * k + 1 < n ==> s[c].priority <= s[2 * k + 1].priority)
    ensures Sinking(s[c := s[k]][k := s[c]], n, c)
    ensures Priorities(s[c := s[k]][k := s[c]], n) == Priorities(s, n)
  {
    var t := s[c := s[k]][k := s[c]];
    forall i | 1 < i < n && i / 2 != c
      ensures EdgeInOrder(t, i)
    {
      if i / 2 == k {
        assert i == 2 * k || i == 2 * k + 1;
      } else if i != k {
        assert EdgeInOrder(s, i);
        assert t[i / 2] == s[i / 2] && t[i] == s[i];
      }
    }
    forall i | 1 < i < n && i / 2 == c
      ensures t[c / 2].priority <= t[i].priority
    {
      assert EdgeInOrder(s, i);
      assert t[i] == s[i];
    }
    forall i | 0 <= i < |t|
      ensures SlotSettled(t, n, i)
    {
      assert SlotSettled(s, n, if i == c then k else if i == k then c else i);
    }
    PrioritiesSwap(s, n, c, k);
  }

  /** The sinking entry stops when it has no child or no child smaller than itself. */
  lemma SinkStop(s: seq<Slot>, n: int, k: int)
    requires Sinking(s, n, k)
    requires 2 * k >= n ||
      (s[k].priority <= s[2 * k].priority && (2 * k + 1 >= n || s[k].priority <= s[2 * k + 1].priority))
    ensures Settled(s, n)
  {
    forall i | 1 < i < n && i / 2 == k
      ensures EdgeInOrder(s, i)
    {
      assert i == 2 * k || i == 2 * k + 1;
    }
  }

  /** The child `deleteMin` compares the sinking entry at k with. */
  function Chosen(s: seq<Slot>, k: nat): (c: int)
    requires 2 * k + 1 < |s|
    ensures c == 2 * k || c == 2 * k + 1
    ensures c == 2 * k + 1 <==> s[2 * k + 1].tag != Empty && s[2 * k].priority >= s[2 * k + 1].priority
  {
    if s[2 * k + 1].tag == Empty || s[2 * k].priority < s[2 * k + 1].priority then 2 * k else 2 * k + 1
  }

  /**
   * The sift-down of `deleteMin` from slot k, while k is below half the array length.
   * An EMPTY left child ends it. The chosen child is the left one when the right is
   * EMPTY or the left is strictly smaller, and the right one otherwise, so a tie goes
   * right. The node swaps with that child only when the child is strictly smaller and
   * not EMPTY, and the walk goes on from there.
   */
  ghost function SinkFrom(s: seq<Slot>, k: nat): seq<Slot>
    requires 1 <= k
    decreases |s| - k
  {
    if k >= |s| / 2 then s
    else
      if s[2 * k].tag == Empty then s
      else
        var child := Chosen(s, k);
        if s[child].priority < s[k].priority && s[child].tag != Empty then
          SinkFrom(s[child := s[k]][k := s[child]], child)
        else s
  }

  /** One step of the walk: a swap with the chosen child, then the walk from there. */
  lemma SinkFromSwap(s: seq<Slot>, k: nat)
    requires 1 <= k < |s| / 2 && s[2 * k].tag != Empty
    requires s[Chosen(s, k)].priority < s[k].priority && s[Chosen(s, k)].tag != Empty
    ensures SinkFrom(s, k) == SinkFrom(s[Chosen(s, k) := s[k]][k := s[Chosen(s, k)]], Chosen(s, k))
  {
  }

  /** The walk ends at k on an EMPTY left child or a chosen child that is not strictly smaller. */
  lemma SinkFromStays(s: seq<Slot>, k: nat)
    requires 1 <= k < |s| / 2
    requires s[2 * k].tag == Empty || !(s[Chosen(s, k)].priority < s[k].priority && s[Chosen(s, k)].tag != Empty)
    ensures SinkFrom(s, k) == s
  {
  }

  /**
   * From any sift-down state the walk ends settled, with the same priorities, and
   * without touching slot n, the one just freed.
   */
  lemma {:induction false} SinkFromSettles(s: seq<Slot>, n: int, k: nat)
    requires Sinking(s, n, k) && n <= |s| / 2
    ensures |SinkFrom(s, k)| == |s|
    ensures Settled(SinkFrom(s, k), n)
    ensures Priorities(SinkFrom(s, k), n) == Priorities(s, n)
    ensures SinkFrom(s, k)[n] == s[n]
    decreases |s| - k
  {
    var left, right := 2 * k, 2 * k + 1;
    Occupied(s, n, left);
    Occupied(s, n, right);
    if s[left].tag == Empty {
      assert SinkFrom(s, k) == s;
      SinkStop(s, n, k);
    } else {
      var child := Chosen(s, k);
      if s[child].priority < s[k].priority && s[child].tag != Empty {
        var t := s[child := s[k]][k := s[child]];
        assert SinkFrom(s, k) == SinkFrom(t, child);
        SinkSwap(s, n, k, child);
        SinkFromSettles(t, n, child);
      } else {
        assert SinkFrom(s, k) == s;
        SinkStop(s, n, k);
      }
    }
  }

  /** On equal children the sinking entry goes right: 5 above two 1s ends in slot 3. */
  lemma SinkFromTie()
    ensures var a := Slot(None, 1, Available);
      var s := [EmptySlot, Slot(None, 5, Available), a, a, EmptySlot, EmptySlot, EmptySlot, EmptySlot];
      SinkFrom(s, 1) == s[1 := a][3 := Slot(None, 5, Available)]
  {
    var a := Slot(None, 1, Available);
    var s := [EmptySlot, Slot(None, 5, Available), a, a, EmptySlot, EmptySlot, EmptySlot, EmptySlot];
    var t := s[3 := s[1]][1 := s[3]];
    assert SinkFrom(s, 1) == SinkFrom(t, 3);
    assert t == s[1 := a][3 := Slot(None, 5, Available)];
  }

  // ---------------------------------------------------------------------------
  // `verify`
  // ---------------------------------------------------------------------------

  /** The three comparisons `verify` makes at index i. */
  ghost predicate PairsInOrderAt(s: seq<Slot>, i: int)
    requires 1 <= i && 2 * i + 1 < |s|
  {
    && !(s[i / 2].priority > s[i].priority && i / 2 >= 1)
    && !(s[2 * i].priority < s[i].priority)
    && !(s[2 * i + 1].priority < s[i].priority)
  }

  /** `verify`'s verdict: the comparisons pass at every 1 <= i < (n-1)/2. */
  ghost predicate VerifyPasses(s: seq<Slot>, n: int)
    requires n <= |s|
  {
    forall i :: 1 <= i < (n - 1) / 2 ==> PairsInOrderAt(s, i)
  }

  /** `verify` raises no false alarm: a heap in order passes it. */
  lemma OrderedPassesVerify(s: seq<Slot>, n: int)
    requires n <= |s| && HeapOrdered(s, n)
    ensures VerifyPasses(s, n)
  {
    forall i | 1 <= i < (n - 1) / 2
      ensures PairsInOrderAt(s, i)
    {
      assert (2 * i) / 2 == i && (2 * i + 1) / 2 == i;
      assert EdgeInOrder(s, 2 * i) && EdgeInOrder(s, 2 * i + 1);
      if i > 1 {
        assert EdgeInOrder(s, i);
      }
    }
  }

  /**
   * `verify` is partial: the last occupied slot is never examined, so whatever it holds
   * cannot change the verdict.
   */
  lemma VerifyIgnoresLastSlot(s: seq<Slot>, n: int, x: Slot)
    requires 2 <= n <= |s|
    ensures VerifyPasses(s[n - 1 := x], n) == VerifyPasses(s, n)
  {
    var t := s[n - 1 := x];
    forall i | 1 <= i < (n - 1) / 2
      ensures PairsInOrderAt(t, i) == PairsInOrderAt(s, i)
    {
      assert 2 * i + 1 < n - 1;
      assert t[i / 2] == s[i / 2] && t[i] == s[i] && t[2 * i] == s[2 * i] && t[2 * i + 1] == s[2 * i + 1];
    }
  }

  /** A concrete heap out of order that `verify` accepts: two entries, the child smaller. */
  lemma VerifyMissesDisorder()
    ensures var s := [EmptySlot, Slot(None, 5, Available), Slot(None, 1, Available)];
      !HeapOrdered(s, 3) && VerifyPasses(s, 3)
  {
    var s := [EmptySlot, Slot(None, 5, Available), Slot(None, 1, Available)];
    assert !EdgeInOrder(s, 2);
  }

  // ---------------------------------------------------------------------------
  // The heap object
  // ---------------------------------------------------------------------------

  class Heap {
    var heap: array<Slot>
    var nextIndex: int

    /** MAX_LENGTH + 1 slots, and `nextIndex` leaves room for both children of every occupied slot. */
    ghost predicate Shaped()
      reads this
    {
      heap.Length == MaxLength + 1 && 1 <= nextIndex <= heap.Length / 2
    }

    /** The invariant between operations. */
    ghost predicate Valid()
      reads this, heap
    {
      Shaped() && Settled(heap[..], nextIndex)
    }

    /** The priorities held by the queue. */
    ghost function Contents(): multiset<int>
      reads this, heap
      requires Valid()
    {
      Priorities(heap[..], nextIndex)
    }

    /** Every slot is a fresh EMPTY node and `nextIndex` is 1. */
    constructor ()
      ensures Valid() && fresh(heap)
      ensures nextIndex == 1 && Contents() == multiset{}
      ensures forall i :: 0 <= i < heap.Length ==> heap[i] == EmptySlot
    {
      var a := new Slot[MaxLength + 1];
      for i := 0 to MaxLength + 1
        invariant forall j :: 0 <= j < i ==> a[j] == EmptySlot
      {
        a[i] := EmptySlot;
      }
      heap := a;
      nextIndex := 1;
    }

    /** Exchanges the value, priority and tag of two slots; nothing else changes. */
    method SwapNodes(one: int, two: int)
      requires 0 <= one < heap.Length && 0 <= two < heap.Length
      modifies heap
      ensures heap[..] == old(heap[..])[one := old(heap[two])][two := old(heap[one])]
    {
      var temp := heap[one];
      heap[one] := heap[two];
      heap[two] := temp;
    }

    /**
     * Claims slot `nextIndex` for `priority` and sifts it up. Rejected, with nothing
     * changed, once `nextIndex * 2 + 1` reaches the array length; `value` is never stored.
     */
    method Insert(value: Option<int>, priority: int) returns (ok: bool)
      requires Valid()
      modifies this, heap
      ensures Valid() && heap == old(heap)
      ensures ok <==> old(nextIndex) * 2 + 1 < heap.Length
      ensures !ok ==> nextIndex == old(nextIndex) && heap[..] == old(heap[..])
      ensures ok ==> nextIndex == old(nextIndex) + 1 && Contents() == old(Contents()) + multiset{priority}
    {
      var index := nextIndex;
      // Both children of the new slot must fit in the array
      if index * 2 + 1 >= heap.Length {
        return false;
      }
      nextIndex := nextIndex + 1;
      ghost var s := heap[..];
      ClimbStart(s, index, priority);
      heap[index] := heap[index].(priority := priority, tag := Owned(Me));
      assert heap[..] == s[index := s[index].(priority := priority, tag := Owned(Me))];

      SiftUp(index);
      ok := true;
    }

    /**
     * The sift-up loop of `insert` and its final step: the entry at `start`, still tagged
     * by this operation, climbs while its parent is larger, and is then made AVAILABLE.
     */
    method SiftUp(start: int)
      requires Shaped() && Climbing(heap[..], nextIndex, start)
      modifies heap
      ensures Settled(heap[..], nextIndex)
      ensures Priorities(heap[..], nextIndex) == Priorities(old(heap[..]), nextIndex)
    {
      ghost var base := Priorities(heap[..], nextIndex);
      var index := start;
      // Climb while the parent's priority is larger
      var done := false;
      while index > 1 && !done
        invariant Shaped() && 1 <= index < nextIndex
        invariant if done then Settled(heap[..], nextIndex) else Climbing(heap[..], nextIndex, index)
        invariant done ==> heap[index].tag == Available
        invariant Priorities(heap[..], nextIndex) == base
        decreases index, if done then 0 else 1
      {
        var parent := index / 2;
        if heap[parent].tag == Available && heap[index].tag == Owned(Me) {
          ghost var t := heap[..];
          if heap[parent].priority > heap[index].priority {
            ClimbSwap(t, nextIndex, index);
            SwapNodes(parent, index);
            index := parent;
          } else {
            ClimbSettle(t, nextIndex, index);
            heap[index] := heap[index].(tag := Available);
            assert heap[..] == t[index := t[index].(tag := Available)];
            done := true;
          }
        } else {
          // The parent is an occupied slot, so AVAILABLE, and the climbing entry still
          // carries this operation's tag: the EMPTY-parent, chase and wait cases of the
          // concurrent algorithm cannot arise when operations run one at a time.
          assert false;
        }
      }

      // The entry rests at the root: release its tag
      if index == 1 {
        if heap[1].tag == Owned(Me) {
          ghost var t := heap[..];
          ClimbSettle(t, nextIndex, 1);
          heap[1] := heap[1].(tag := Available);
          assert heap[..] == t[1 := t[1].(tag := Available)];
        }
      }
    }

    /**
     * Removes the root and returns its priority (not its value), moving the last entry
     * into the root and sifting it down; returns None, with nothing changed, when empty.
     */
    method DeleteMin() returns (r: Option<int>)
      requires Valid()
      modifies this, heap
      ensures Valid() && heap == old(heap)
      ensures old(nextIndex) == 1 ==> r == None && nextIndex == 1 && heap[..] == old(heap[..])
      ensures old(nextIndex) > 1 ==>
        && r == Some(old(heap[1].priority))
        && nextIndex == old(nextIndex) - 1
        && heap[nextIndex] == old(heap[1]).(tag := Empty)
        && Contents() == old(Contents()) - multiset{r.value}
      ensures r.Some? ==> IsMinimum(r.value, old(Contents()))
    {
      var index := nextIndex - 1;
      // No occupied slot: nothing to take
      if index == 0 {
        return None;
      }
      ghost var s, n := heap[..], nextIndex;
      RootIsMinimum(s, n);
      RootToLastPriorities(s, n);
      if n > 2 {
        RootToLastSinks(s, n);
      }
      nextIndex := nextIndex - 1;
      var priority := heap[1].priority;
      heap[1] := heap[1].(tag := Empty);
      assert heap[..] == s[1 := s[1].(tag := Empty)];
      SwapNodes(1, index);
      assert heap[..] == RootToLast(s, n);

      // The root slot was the last occupied one
      if heap[1].tag == Empty {
        RootToLastSingle(s);
        return Some(priority);
      }

      ghost var t := heap[..];
      heap[1] := heap[1].(tag := Available);
      assert heap[..] == t;
      SiftDown();
      return Some(priority);
    }

    /**
     * The sift-down loop of `deleteMin`: the entry at the root moves down as `SinkFrom`
     * says, swapping with its smaller child while that child is strictly smaller, until
     * heap order is restored.
     */
    method SiftDown()
      requires Shaped() && Sinking(heap[..], nextIndex, 1)
      modifies heap
      ensures heap[..] == SinkFrom(old(heap[..]), 1)
      ensures Settled(heap[..], nextIndex)
      ensures heap[nextIndex] == old(heap[nextIndex])
      ensures Priorities(heap[..], nextIndex) == Priorities(old(heap[..]), nextIndex)
    {
      ghost var start := heap[..];
      SinkFromSettles(start, nextIndex, 1);
      var index := 1;
      while index < heap.Length / 2
        invariant 1 <= index < heap.Length
        invariant SinkFrom(heap[..], index) == SinkFrom(start, 1)
        decreases heap.Length - index
      {
        ghost var u := heap[..];
        var left, right := index * 2, index * 2 + 1;
        var child: int;
        // The left child slot is EMPTY, so the sinking entry is a leaf
        if heap[left].tag == Empty {
          SinkFromStays(u, index);
          break;
        } else if heap[right].tag == Empty || heap[left].priority < heap[right].priority {
          child := left;
        } else {
          child := right;
        }
        assert child == Chosen(u, index);

        // Sink below the chosen child only when it is strictly smaller and occupied
        if heap[child].priority < heap[index].priority && heap[child].tag != Empty {
          SinkFromSwap(u, index);
          SwapNodes(child, index);
          index := child;
        } else {
          SinkFromStays(u, index);
          break;
        }
      }
    }

    /**
     * The diagnostic checker: true exactly when every comparison it makes passes. It
     * looks only at 1 <= i < (nextIndex-1)/2, so it is sound but partial.
     */
    method Verify() returns (ok: bool)
      requires Shaped()
      ensures ok == VerifyPasses(heap[..], nextIndex)
      ensures HeapOrdered(heap[..], nextIndex) ==> ok
    {
      if HeapOrdered(heap[..], nextIndex) {
        OrderedPassesVerify(heap[..], nextIndex);
      }
      var i := 1;
      while i < (nextIndex - 1) / 2
        invariant 1 <= i && (i <= (nextIndex - 1) / 2 || i == 1)
        invariant forall j :: 1 <= j < i ==> PairsInOrderAt(heap[..], j)
      {
        var parent, left, right := i / 2, 2 * i, 2 * i + 1;
        if heap[parent].priority > heap[i].priority && parent >= 1 {
          assert !PairsInOrderAt(heap[..], i);
          return false;
        }
        if heap[left].priority < heap[i].priority {
          assert !PairsInOrderAt(heap[..], i);
          return false;
        }
        if heap[right].priority < heap[i].priority {
          assert !PairsInOrderAt(heap[..], i);
          return false;
        }
        i := i + 1;
      }
      ok := true;
    }
  }
}
