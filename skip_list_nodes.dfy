/**
 * The nodes of the sequential skip list, kept in an arena: a node is an integer
 * handle and its six fields are six sequences indexed by handles. A ghost list of
 * levels (the handles of each level from the head sentinel to the tail sentinel)
 * and a ghost level number per handle tie the links to the abstract view.
 */
module SkipListNodes {
  import opened Wrappers
  import opened SkipListEntries

  /** Integer.MIN_VALUE and Integer.MAX_VALUE, the keys of the sentinels. */
  const MinValue: int := -0x8000_0000
  const MaxValue: int := 0x7fff_ffff

  /** Java's int. */
  type Int32 = x: int | MinValue <= x <= MaxValue

  /** The null reference. */
  const Nil: int := -1

  /** Node fields, handle by handle: node h has key[h], value[h], up[h], down[h], left[h], right[h]. */
  datatype Arena = Arena(key: seq<int>, value: seq<Option<int>>,
                         up: seq<int>, down: seq<int>, left: seq<int>, right: seq<int>)
  {
    predicate Ok()
    {
      |value| == |key| && |up| == |key| && |down| == |key| && |left| == |key| && |right| == |key|
    }

    function Size(): nat
    {
      |key|
    }

    /** `new Node(k, v)`: the next handle, with every link null. */
    function New(k: int, v: Option<int>): Arena
    {
      Arena(key + [k], value + [v], up + [Nil], down + [Nil], left + [Nil], right + [Nil])
    }
  }

  /** Handle h has the same six fields in a and b. */
  predicate SameNode(a: Arena, b: Arena, h: int)
    requires a.Ok() && b.Ok() && 0 <= h < a.Size() && h < b.Size()
  {
    && a.key[h] == b.key[h] && a.value[h] == b.value[h] && a.up[h] == b.up[h]
    && a.down[h] == b.down[h] && a.left[h] == b.left[h] && a.right[h] == b.right[h]
  }

  /** `new Node(k, v)` adds one node with key k, value v and null links, and leaves every other node alone. */
  lemma NewNode(a: Arena, k: int, v: Option<int>)
    requires a.Ok()
    ensures var b := a.New(k, v);
      && b.Ok() && b.Size() == a.Size() + 1
      && b.key[a.Size()] == k && b.value[a.Size()] == v
      && b.up[a.Size()] == Nil && b.down[a.Size()] == Nil && b.left[a.Size()] == Nil && b.right[a.Size()] == Nil
      && forall h :: 0 <= h < a.Size() ==> SameNode(a, b, h)
  {
  }

  /**
   * While a column is being unlinked, the node of that key on the level being
   * worked on may point down to a node that is already gone. NoGap exempts nobody.
   */
  datatype Gap = Gap(level: int, key: int)

  const NoGap := Gap(-1, 0)

  /** x's down link reaches a node one level lower with the same key, whose up link comes back. */
  ghost predicate DownLinked(a: Arena, lvl: seq<int>, x: int, l: int)
    requires a.Ok() && |lvl| == a.Size() && 0 <= x < a.Size()
  {
    var d := a.down[x];
    0 <= d < a.Size() && lvl[d] == l - 1 && a.key[d] == a.key[x] && a.up[d] == x
  }

  /** x's up link reaches a node one level higher with the same key, whose down link comes back. */
  ghost predicate UpLinked(a: Arena, lvl: seq<int>, x: int, l: int)
    requires a.Ok() && |lvl| == a.Size() && 0 <= x < a.Size()
  {
    var u := a.up[x];
    0 <= u < a.Size() && lvl[u] == l + 1 && a.key[u] == a.key[x] && a.down[u] == x
  }

  /** What the node at position j of level l must satisfy. */
  ghost predicate NodeOk(a: Arena, lvl: seq<int>, levels: seq<seq<int>>, g: Gap, l: int, j: int)
    requires a.Ok() && |lvl| == a.Size()
    requires 0 <= l < |levels| && 0 <= j < |levels[l]|
  {
    var L := levels[l];
    var x := L[j];
    && 0 <= x < a.Size()
    && lvl[x] == l
    && a.right[x] == (if j + 1 < |L| then L[j + 1] else Nil)
    && a.left[x] == (if j > 0 then L[j - 1] else Nil)
    && (j + 1 < |L| ==> 0 <= L[j + 1] < a.Size() && a.key[x] < a.key[L[j + 1]])
    && (j == 0 ==> a.key[x] == MinValue && a.value[x] == None)
    && (j == |L| - 1 ==> a.key[x] == MaxValue && a.value[x] == None)
    && (0 < j < |L| - 1 ==> a.value[x].Some?)
    && (if l == 0 then a.down[x] == Nil else g != Gap(l, a.key[x]) ==> DownLinked(a, lvl, x, l))
    && (a.up[x] == Nil || UpLinked(a, lvl, x, l))
  }

  /** Handle h is on the level lvl[h] says, or is unlinked (-1). */
  ghost predicate Placed(lvl: seq<int>, levels: seq<seq<int>>, h: int)
    requires 0 <= h < |lvl|
  {
    -1 <= lvl[h] < |levels| && (lvl[h] >= 0 ==> h in levels[lvl[h]])
  }

  /** The well-formedness of the whole quad-linked structure. */
  ghost predicate Wf(a: Arena, lvl: seq<int>, levels: seq<seq<int>>, g: Gap)
  {
    && a.Ok() && |lvl| == a.Size() && |levels| >= 1
    && (forall l :: 0 <= l < |levels| ==> |levels[l]| >= 2)
    && (forall l, j :: 0 <= l < |levels| && 0 <= j < |levels[l]| ==> NodeOk(a, lvl, levels, g, l, j))
    && (forall h :: 0 <= h < |lvl| ==> Placed(lvl, levels, h))
  }

  /** The entry a node stands for (total: 0 for a handle outside the arena). */
  function EntryOf(a: Arena, h: int): Entry
  {
    if 0 <= h < |a.key| && h < |a.value| then Entry(a.key[h], a.value[h].GetOr(0)) else Entry(0, 0)
  }

  /** The entries of a level: every node between the two sentinels. */
  ghost function LevelEntries(a: Arena, L: seq<int>): (es: seq<Entry>)
    ensures |L| >= 2 ==> |es| == |L| - 2
  {
    if |L| < 2 then [] else seq(|L| - 2, i requires 0 <= i < |L| - 2 => EntryOf(a, L[i + 1]))
  }

  /** The entries of every level, bottom level first. */
  ghost function LevelViews(a: Arena, levels: seq<seq<int>>): seq<seq<Entry>>
  {
    seq(|levels|, m requires 0 <= m < |levels| => LevelEntries(a, levels[m]))
  }

  /** No node of the level carries key k. */
  ghost predicate KeyAbsent(a: Arena, L: seq<int>, k: int)
  {
    forall j :: 0 <= j < |L| && 0 <= L[j] < |a.key| ==> a.key[L[j]] != k
  }

  /** Keys increase along every level. */
  lemma {:induction false} Sorted(a: Arena, lvl: seq<int>, levels: seq<seq<int>>, g: Gap, l: int, i: int, j: int)
    requires Wf(a, lvl, levels, g) && 0 <= l < |levels| && 0 <= i < j < |levels[l]|
    ensures 0 <= levels[l][i] < a.Size() && 0 <= levels[l][j] < a.Size()
    ensures a.key[levels[l][i]] < a.key[levels[l][j]]
    decreases j - i
  {
    assert NodeOk(a, lvl, levels, g, l, i);
    if i + 1 < j {
      Sorted(a, lvl, levels, g, l, i + 1, j);
    }
  }

  /** Every key lies between the sentinel keys, strictly so for a node between the sentinels. */
  lemma KeyBounds(a: Arena, lvl: seq<int>, levels: seq<seq<int>>, g: Gap, l: int, j: int)
    requires Wf(a, lvl, levels, g) && 0 <= l < |levels| && 0 <= j < |levels[l]|
    ensures 0 <= levels[l][j] < a.Size()
    ensures MinValue <= a.key[levels[l][j]] <= MaxValue
    ensures 0 < j < |levels[l]| - 1 ==> MinValue < a.key[levels[l][j]] < MaxValue
  {
    var L := levels[l];
    assert NodeOk(a, lvl, levels, g, l, 0);
    assert NodeOk(a, lvl, levels, g, l, |L| - 1);
    assert NodeOk(a, lvl, levels, g, l, j);
    if 0 < j {
      Sorted(a, lvl, levels, g, l, 0, j);
    }
    if j < |L| - 1 {
      Sorted(a, lvl, levels, g, l, j, |L| - 1);
    }
  }

  /** The position of a linked handle on its level. */
  lemma Locate(a: Arena, lvl: seq<int>, levels: seq<seq<int>>, g: Gap, h: int) returns (j: int)
    requires Wf(a, lvl, levels, g) && 0 <= h < a.Size() && lvl[h] >= 0
    ensures lvl[h] < |levels| && 0 <= j < |levels[lvl[h]]| && levels[lvl[h]][j] == h
  {
    assert Placed(lvl, levels, h);
    j :| 0 <= j < |levels[lvl[h]]| && levels[lvl[h]][j] == h;
  }

  /** The head sentinels form a column: each one's down link is the head of the level below. */
  lemma HeadsStacked(a: Arena, lvl: seq<int>, levels: seq<seq<int>>, l: int)
    requires Wf(a, lvl, levels, NoGap) && 0 < l < |levels|
    ensures 0 <= levels[l][0] < a.Size() && 0 <= levels[l - 1][0] < a.Size()
    ensures a.down[levels[l][0]] == levels[l - 1][0]
    ensures a.up[levels[l - 1][0]] == levels[l][0]
  {
    var x := levels[l][0];
    assert NodeOk(a, lvl, levels, NoGap, l, 0);
    var d := a.down[x];
    var m := Locate(a, lvl, levels, NoGap, d);
    assert NodeOk(a, lvl, levels, NoGap, l - 1, 0);
    if m > 0 {
      Sorted(a, lvl, levels, NoGap, l - 1, 0, m);
    }
  }

  /** Each level's head sentinel points down to the head sentinel of the level below, the bottom one to null. */
  lemma HeadDown(a: Arena, lvl: seq<int>, levels: seq<seq<int>>, l: int)
    requires Wf(a, lvl, levels, NoGap) && 0 <= l < |levels|
    ensures 0 <= levels[l][0] < a.Size()
    ensures a.down[levels[l][0]] == if l > 0 then levels[l - 1][0] else Nil
    ensures l > 0 ==> 0 <= levels[l - 1][0] < a.Size()
  {
    if l > 0 {
      HeadsStacked(a, lvl, levels, l);
    } else {
      assert NodeOk(a, lvl, levels, NoGap, 0, 0);
    }
  }


  /** The abstract entries of a level are in increasing key order. */
  lemma LevelIncreasing(a: Arena, lvl: seq<int>, levels: seq<seq<int>>, g: Gap, l: int)
    requires Wf(a, lvl, levels, g) && 0 <= l < |levels|
    ensures Increasing(LevelEntries(a, levels[l]))
  {
    var L := levels[l];
    var es := LevelEntries(a, L);
    forall i, j | 0 <= i < j < |es|
      ensures es[i].key < es[j].key
    {
      Sorted(a, lvl, levels, g, l, i + 1, j + 1);
    }
  }

  /**
   * Seen from the node at position j, whose key is at most k while its right
   * neighbour's exceeds k, the level holds k exactly when that node does, and
   * then with that node's value.
   */
  lemma LevelLookup(a: Arena, lvl: seq<int>, levels: seq<seq<int>>, g: Gap, l: int, j: int, k: int)
    requires Wf(a, lvl, levels, g) && 0 <= l < |levels| && 0 <= j < |levels[l]| - 1
    requires 0 <= levels[l][j] < a.Size() && 0 <= levels[l][j + 1] < a.Size()
    requires a.key[levels[l][j]] <= k < a.key[levels[l][j + 1]]
    ensures Lookup(LevelEntries(a, levels[l]), k)
            == if a.key[levels[l][j]] == k then a.value[levels[l][j]] else None
  {
    var L := levels[l];
    var es := LevelEntries(a, L);
    LevelIncreasing(a, lvl, levels, g, l);
    assert NodeOk(a, lvl, levels, g, l, j);
    if 0 < j && a.key[L[j]] == k {
      assert es[j - 1] == EntryOf(a, L[j]);
      LookupAt(es, j - 1);
    } else {
      forall i | 0 <= i < |es|
        ensures es[i].key != k
      {
        assert es[i] == EntryOf(a, L[i + 1]);
        KeyBounds(a, lvl, levels, g, l, i + 1);
        if i + 1 < j {
          Sorted(a, lvl, levels, g, l, i + 1, j);
        } else if j + 1 < i + 1 {
          Sorted(a, lvl, levels, g, l, j + 1, i + 1);
        }
      }
    }
  }

  /**
   * A new top level: two fresh sentinels linked to each other, their down links
   * on the old head and tail, whose up links come back to them.
   */
  function Stack(a: Arena, head: int, tail: int): Arena
    requires a.Ok() && 0 <= head < a.Size() && 0 <= tail < a.Size()
  {
    var n1 := a.Size();
    var n2 := a.Size() + 1;
    var b := a.New(MinValue, None).New(MaxValue, None);
    b.(right := b.right[n1 := n2], left := b.left[n2 := n1],
       down := b.down[n1 := head][n2 := tail], up := b.up[head := n1][tail := n2])
  }

  /**
   * The new top level: sentinels MIN_VALUE and MAX_VALUE linked to each other, standing on
   * the old head and tail, whose up links now reach them; no other link of any node changes.
   */
  lemma StackLinks(a: Arena, head: int, tail: int)
    requires a.Ok() && 0 <= head < a.Size() && 0 <= tail < a.Size() && head != tail
    ensures var b, n1, n2 := Stack(a, head, tail), a.Size(), a.Size() + 1;
      && b.Ok() && b.Size() == a.Size() + 2
      && b.key[n1] == MinValue && b.key[n2] == MaxValue && b.value[n1] == None && b.value[n2] == None
      && b.left[n1] == Nil && b.right[n1] == n2 && b.left[n2] == n1 && b.right[n2] == Nil
      && b.up[n1] == Nil && b.up[n2] == Nil && b.down[n1] == head && b.down[n2] == tail
      && b.up[head] == n1 && b.up[tail] == n2
      && (forall h :: 0 <= h < a.Size() && h != head && h != tail ==> SameNode(a, b, h))
      && SameNode(a, b.(up := a.up + [Nil, Nil]), head) && SameNode(a, b.(up := a.up + [Nil, Nil]), tail)
  {
  }

  /** The top level's sentinels are the head and tail handles. */
  ghost predicate Topped(levels: seq<seq<int>>, head: int, tail: int)
  {
    |levels| >= 1 && |levels[|levels| - 1]| >= 2
    && head == levels[|levels| - 1][0] && tail == levels[|levels| - 1][|levels[|levels| - 1]| - 1]
  }

  /** Stacking a new empty level keeps the structure well formed and every old level's entries. */
  lemma StackWf(a: Arena, lvl: seq<int>, levels: seq<seq<int>>, head: int, tail: int)
    requires Wf(a, lvl, levels, NoGap) && Topped(levels, head, tail)
    ensures 0 <= head < a.Size() && 0 <= tail < a.Size()
    ensures Wf(Stack(a, head, tail), lvl + [|levels|, |levels|], levels + [[a.Size(), a.Size() + 1]], NoGap)
    ensures Topped(levels + [[a.Size(), a.Size() + 1]], a.Size(), a.Size() + 1)
    ensures forall l :: 0 <= l < |levels| ==> LevelEntries(Stack(a, head, tail), levels[l]) == LevelEntries(a, levels[l])
    ensures LevelEntries(Stack(a, head, tail), [a.Size(), a.Size() + 1]) == []
  {
    var h := |levels| - 1;
    assert NodeOk(a, lvl, levels, NoGap, h, 0);
    assert NodeOk(a, lvl, levels, NoGap, h, |levels[h]| - 1);
    StackNodes(a, lvl, levels, head, tail);
    StackPlaced(lvl, levels, lvl + [|levels|, |levels|], levels + [[a.Size(), a.Size() + 1]]);
    var b := Stack(a, head, tail);
    forall l | 0 <= l < |levels|
      ensures LevelEntries(b, levels[l]) == LevelEntries(a, levels[l])
    {
      forall i | 0 <= i < |levels[l]|
        ensures EntryOf(b, levels[l][i]) == EntryOf(a, levels[l][i])
      {
        assert NodeOk(a, lvl, levels, NoGap, l, i);
      }
    }
  }

  /** StackWf for a whole list: the new empty level becomes the top one. */
  lemma StackListWf(a: Arena, lvl: seq<int>, levels: seq<seq<int>>, head: int, tail: int, height: int)
    requires ListWf(a, lvl, levels, head, tail, height)
    ensures ListWf(Stack(a, head, tail), lvl + [|levels|, |levels|], levels + [[a.Size(), a.Size() + 1]],
                   a.Size(), a.Size() + 1, height + 1)
    ensures LevelViews(Stack(a, head, tail), levels + [[a.Size(), a.Size() + 1]]) == LevelViews(a, levels) + [[]]
  {
    StackWf(a, lvl, levels, head, tail);
    var levels' := levels + [[a.Size(), a.Size() + 1]];
    assert forall m :: 0 <= m < |levels| ==> levels'[m] == levels[m];
  }

  lemma StackNodes(a: Arena, lvl: seq<int>, levels: seq<seq<int>>, head: int, tail: int)
    requires Wf(a, lvl, levels, NoGap) && Topped(levels, head, tail)
    requires 0 <= head < a.Size() && 0 <= tail < a.Size() && head != tail
    requires lvl[head] == |levels| - 1 && lvl[tail] == |levels| - 1
    requires a.key[head] == MinValue && a.key[tail] == MaxValue
    ensures var levels' := levels + [[a.Size(), a.Size() + 1]];
      forall l, j :: 0 <= l < |levels'| && 0 <= j < |levels'[l]| ==>
        NodeOk(Stack(a, head, tail), lvl + [|levels|, |levels|], levels', NoGap, l, j)
  {
    var b := Stack(a, head, tail);
    var lvl' := lvl + [|levels|, |levels|];
    var levels' := levels + [[a.Size(), a.Size() + 1]];
    forall l, j | 0 <= l < |levels'| && 0 <= j < |levels'[l]|
      ensures NodeOk(b, lvl', levels', NoGap, l, j)
    {
      if l < |levels| {
        assert NodeOk(a, lvl, levels, NoGap, l, j);
        var x := levels[l][j];
        if a.up[x] != Nil {
          assert Placed(lvl, levels, a.up[x]);
        }
        StackKeepsNode(a, lvl, levels, head, tail, l, j);
      }
    }
  }

  lemma StackPlaced(lvl: seq<int>, levels: seq<seq<int>>, lvl': seq<int>, levels': seq<seq<int>>)
    requires forall x :: 0 <= x < |lvl| ==> Placed(lvl, levels, x)
    requires lvl' == lvl + [|levels|, |levels|] && levels' == levels + [[|lvl|, |lvl| + 1]]
    ensures forall x :: 0 <= x < |lvl'| ==> Placed(lvl', levels', x)
  {
    forall x | 0 <= x < |lvl'|
      ensures Placed(lvl', levels', x)
    {
      if x < |lvl| {
        assert Placed(lvl, levels, x);
      } else {
        assert levels'[|levels|][x - |lvl|] == x;
      }
    }
  }

  /** A node of an old level stays well placed under a new top level. */
  lemma StackKeepsNode(a: Arena, lvl: seq<int>, levels: seq<seq<int>>, head: int, tail: int, l: int, j: int)
    requires a.Ok() && |lvl| == a.Size() && 0 <= l < |levels| && 0 <= j < |levels[l]|
    requires NodeOk(a, lvl, levels, NoGap, l, j)
    requires 0 <= head < a.Size() && 0 <= tail < a.Size() && head != tail
    requires lvl[head] == |levels| - 1 && lvl[tail] == |levels| - 1
    requires a.key[head] == MinValue && a.key[tail] == MaxValue
    requires a.up[levels[l][j]] != Nil ==> lvl[a.up[levels[l][j]]] < |levels|
    ensures NodeOk(Stack(a, head, tail), lvl + [|levels|, |levels|], levels + [[a.Size(), a.Size() + 1]], NoGap, l, j)
  {
    var levels' := levels + [[a.Size(), a.Size() + 1]];
    assert levels'[l] == levels[l];
  }

  /**
   * `e.left = p; e.right = p.right; p.right.left = e; p.right = e`, and on an upper
   * level also `e.down = below; below.up = e`: e goes between p and its right neighbour.
   */
  function Attach(a: Arena, p: int, e: int, below: int): Arena
    requires a.Ok() && 0 <= p < a.Size() && 0 <= e < a.Size() && 0 <= a.right[p] < a.Size()
    requires below == Nil || 0 <= below < a.Size()
  {
    var r := a.right[p];
    var b := a.(left := a.left[e := p][r := e], right := a.right[e := r][p := e]);
    if below == Nil then b else b.(down := b.down[e := below], up := b.up[below := e])
  }

  /**
   * Splicing a fresh node of key k after p: it sits between p and p's old right neighbour r,
   * which now point at it, and stands on `below`, whose up link comes back; p keeps its
   * other links, r its other links, and every other node is untouched.
   */
  lemma AttachLinks(a: Arena, p: int, k: int, v: int, below: int, b: Arena)
    requires a.Ok() && 0 <= p < a.Size() && 0 <= a.right[p] < a.Size() && a.right[p] != p
    requires below == Nil || (0 <= below < a.Size() && below != p && below != a.right[p])
    requires b == Attach(a.New(k, Some(v)), p, a.Size(), below)
    ensures b.Ok() && b.Size() == a.Size() + 1
    ensures b.key[a.Size()] == k && b.value[a.Size()] == Some(v) && b.up[a.Size()] == Nil && b.down[a.Size()] == below
    ensures b.left[a.Size()] == p && b.right[a.Size()] == a.right[p]
    ensures b.right[p] == a.Size() && b.left[a.right[p]] == a.Size()
    ensures below != Nil ==> b.up[below] == a.Size() && SameNode(a, b.(up := a.up + [Nil]), below)
    ensures SameNode(a, b.(right := a.right + [a.right[p]]), p)
    ensures SameNode(a, b.(left := a.left + [p]), a.right[p])
    ensures forall h :: 0 <= h < a.Size() && h != p && h != a.right[p] && h != below ==> SameNode(a, b, h)
  {
  }

  /** The level with handle e put at position i. */
  function InsertAt(L: seq<int>, i: int, e: int): (L': seq<int>)
    requires 0 <= i <= |L|
    ensures |L'| == |L| + 1 && L'[i] == e
    ensures forall m :: 0 <= m < i ==> L'[m] == L[m]
    ensures forall m :: i < m < |L'| ==> L'[m] == L[m - 1]
  {
    L[..i] + [e] + L[i..]
  }

  /**
   * Key k can go right after position j of level l: it lies strictly between the
   * keys there, and on an upper level `below` is the topmost node of k's tower.
   */
  ghost predicate SpliceFacts(a: Arena, lvl: seq<int>, levels: seq<seq<int>>, l: int, j: int, k: int, below: int)
  {
    && a.Ok() && |lvl| == a.Size() && 0 <= l < |levels| && 0 <= j < |levels[l]| - 1
    && NodeOk(a, lvl, levels, NoGap, l, j) && NodeOk(a, lvl, levels, NoGap, l, j + 1)
    && a.key[levels[l][j]] < k < a.key[levels[l][j + 1]]
    && if l == 0 then below == Nil
       else 0 <= below < a.Size() && lvl[below] == l - 1 && a.key[below] == k && a.up[below] == Nil
  }

  ghost predicate SpliceReady(a: Arena, lvl: seq<int>, levels: seq<seq<int>>, l: int, j: int, k: int, below: int)
  {
    Wf(a, lvl, levels, NoGap) && SpliceFacts(a, lvl, levels, l, j, k, below)
  }

  /** The state after splicing key k, with value v, right after position j of level l. */
  ghost function Spliced(a: Arena, levels: seq<seq<int>>, l: int, j: int, k: int, v: int, below: int): Arena
    requires a.Ok() && 0 <= l < |levels| && 0 <= j < |levels[l]| - 1
    requires 0 <= levels[l][j] < a.Size() && a.right[levels[l][j]] == levels[l][j + 1]
    requires 0 <= levels[l][j + 1] < a.Size() && (below == Nil || 0 <= below < a.Size())
  {
    Attach(a.New(k, Some(v)), levels[l][j], a.Size(), below)
  }

  /** A node of level l left of the splice point keeps its place. */
  lemma SpliceKeepsLeft(a: Arena, lvl: seq<int>, levels: seq<seq<int>>, l: int, j: int, k: int, v: int, below: int, i: int)
    requires SpliceFacts(a, lvl, levels, l, j, k, below)
    requires 0 <= i < j && NodeOk(a, lvl, levels, NoGap, l, i)
    requires a.key[levels[l][i]] < a.key[levels[l][j]]
    ensures NodeOk(Spliced(a, levels, l, j, k, v, below), lvl + [l],
                   levels[l := InsertAt(levels[l], j + 1, a.Size())], NoGap, l, i)
  {
  }

  /** A node of level l right of the splice point moves one place right. */
  lemma SpliceKeepsRight(a: Arena, lvl: seq<int>, levels: seq<seq<int>>, l: int, j: int, k: int, v: int, below: int, i: int)
    requires SpliceFacts(a, lvl, levels, l, j, k, below)
    requires j + 2 < i <= |levels[l]| && NodeOk(a, lvl, levels, NoGap, l, i - 1)
    requires a.key[levels[l][j + 1]] < a.key[levels[l][i - 1]]
    ensures NodeOk(Spliced(a, levels, l, j, k, v, below), lvl + [l],
                   levels[l := InsertAt(levels[l], j + 1, a.Size())], NoGap, l, i)
  {
  }

  /** p now links right to the new node. */
  lemma SpliceLinksLeft(a: Arena, lvl: seq<int>, levels: seq<seq<int>>, l: int, j: int, k: int, v: int, below: int)
    requires SpliceFacts(a, lvl, levels, l, j, k, below)
    ensures NodeOk(Spliced(a, levels, l, j, k, v, below), lvl + [l],
                   levels[l := InsertAt(levels[l], j + 1, a.Size())], NoGap, l, j)
  {
  }

  /** The new node sits between p and p's old right neighbour, on top of `below`. */
  lemma SpliceLinksMid(a: Arena, lvl: seq<int>, levels: seq<seq<int>>, l: int, j: int, k: int, v: int, below: int)
    requires SpliceFacts(a, lvl, levels, l, j, k, below)
    ensures NodeOk(Spliced(a, levels, l, j, k, v, below), lvl + [l],
                   levels[l := InsertAt(levels[l], j + 1, a.Size())], NoGap, l, j + 1)
  {
  }

  /** p's old right neighbour now links left to the new node. */
  lemma SpliceLinksRight(a: Arena, lvl: seq<int>, levels: seq<seq<int>>, l: int, j: int, k: int, v: int, below: int)
    requires SpliceFacts(a, lvl, levels, l, j, k, below)
    ensures NodeOk(Spliced(a, levels, l, j, k, v, below), lvl + [l],
                   levels[l := InsertAt(levels[l], j + 1, a.Size())], NoGap, l, j + 2)
  {
  }

  /** A node of another level keeps its place when e is spliced into level l. */
  lemma SpliceKeepsOther(a: Arena, lvl: seq<int>, levels: seq<seq<int>>, l: int, j: int, k: int, v: int, below: int, m: int, i: int)
    requires SpliceFacts(a, lvl, levels, l, j, k, below)
    requires 0 <= m < |levels| && m != l && 0 <= i < |levels[m]| && NodeOk(a, lvl, levels, NoGap, m, i)
    requires levels[m][i] != below
    ensures NodeOk(Spliced(a, levels, l, j, k, v, below), lvl + [l],
                   levels[l := InsertAt(levels[l], j + 1, a.Size())], NoGap, m, i)
  {
  }

  /** The top of the tower below now links up to the new node. */
  lemma SpliceKeepsBelow(a: Arena, lvl: seq<int>, levels: seq<seq<int>>, l: int, j: int, k: int, v: int, below: int, m: int, i: int)
    requires SpliceFacts(a, lvl, levels, l, j, k, below)
    requires 0 <= m < |levels| && m != l && 0 <= i < |levels[m]| && NodeOk(a, lvl, levels, NoGap, m, i)
    requires levels[m][i] == below
    ensures NodeOk(Spliced(a, levels, l, j, k, v, below), lvl + [l],
                   levels[l := InsertAt(levels[l], j + 1, a.Size())], NoGap, m, i)
  {
  }

  /** Every node of the spliced structure is in place. */
  lemma SpliceNodes(a: Arena, lvl: seq<int>, levels: seq<seq<int>>, l: int, j: int, k: int, v: int, below: int,
                    b: Arena, lvl': seq<int>, levels': seq<seq<int>>)
    requires SpliceReady(a, lvl, levels, l, j, k, below)
    requires b == Spliced(a, levels, l, j, k, v, below) && lvl' == lvl + [l]
    requires levels' == levels[l := InsertAt(levels[l], j + 1, a.Size())]
    ensures forall m, i :: 0 <= m < |levels'| && 0 <= i < |levels'[m]| ==> NodeOk(b, lvl', levels', NoGap, m, i)
  {
    forall m, i | 0 <= m < |levels'| && 0 <= i < |levels'[m]|
      ensures NodeOk(b, lvl', levels', NoGap, m, i)
    {
      if m != l {
        SpliceNodeOther(a, lvl, levels, l, j, k, v, below, m, i);
      } else {
        SpliceNodeLevel(a, lvl, levels, l, j, k, v, below, i);
      }
    }
  }

  /** A node of another level is in place after the splice. */
  lemma SpliceNodeOther(a: Arena, lvl: seq<int>, levels: seq<seq<int>>, l: int, j: int, k: int, v: int, below: int, m: int, i: int)
    requires SpliceReady(a, lvl, levels, l, j, k, below)
    requires 0 <= m < |levels| && m != l && 0 <= i < |levels[m]|
    ensures NodeOk(Spliced(a, levels, l, j, k, v, below), lvl + [l],
                   levels[l := InsertAt(levels[l], j + 1, a.Size())], NoGap, m, i)
  {
    assert NodeOk(a, lvl, levels, NoGap, m, i);
    if levels[m][i] == below {
      SpliceKeepsBelow(a, lvl, levels, l, j, k, v, below, m, i);
    } else {
      SpliceKeepsOther(a, lvl, levels, l, j, k, v, below, m, i);
    }
  }

  /** A node of level l, the new one included, is in place after the splice. */
  lemma SpliceNodeLevel(a: Arena, lvl: seq<int>, levels: seq<seq<int>>, l: int, j: int, k: int, v: int, below: int, i: int)
    requires SpliceReady(a, lvl, levels, l, j, k, below)
    requires 0 <= i <= |levels[l]|
    ensures NodeOk(Spliced(a, levels, l, j, k, v, below), lvl + [l],
                   levels[l := InsertAt(levels[l], j + 1, a.Size())], NoGap, l, i)
  {
    if i < j {
      assert NodeOk(a, lvl, levels, NoGap, l, i);
      Sorted(a, lvl, levels, NoGap, l, i, j);
      SpliceKeepsLeft(a, lvl, levels, l, j, k, v, below, i);
    } else if i > j + 2 {
      assert NodeOk(a, lvl, levels, NoGap, l, i - 1);
      Sorted(a, lvl, levels, NoGap, l, j + 1, i - 1);
      SpliceKeepsRight(a, lvl, levels, l, j, k, v, below, i);
    } else if i == j {
      SpliceLinksLeft(a, lvl, levels, l, j, k, v, below);
    } else if i == j + 1 {
      SpliceLinksMid(a, lvl, levels, l, j, k, v, below);
    } else {
      SpliceLinksRight(a, lvl, levels, l, j, k, v, below);
    }
  }

  /** Every handle of the spliced structure is on the level its number says. */
  lemma SplicePlaced(lvl: seq<int>, levels: seq<seq<int>>, l: int, j: int, lvl': seq<int>, levels': seq<seq<int>>)
    requires forall x :: 0 <= x < |lvl| ==> Placed(lvl, levels, x)
    requires 0 <= l < |levels| && 0 <= j < |levels[l]|
    requires lvl' == lvl + [l] && levels' == levels[l := InsertAt(levels[l], j + 1, |lvl|)]
    ensures forall x :: 0 <= x < |lvl'| ==> Placed(lvl', levels', x)
  {
    forall x | 0 <= x < |lvl'|
      ensures Placed(lvl', levels', x)
    {
      if x < |lvl| {
        assert Placed(lvl, levels, x);
        if lvl[x] == l {
          var i :| 0 <= i < |levels[l]| && levels[l][i] == x;
          assert levels'[l][if i <= j then i else i + 1] == x;
        }
      } else {
        assert levels'[l][j + 1] == x;
      }
    }
  }

  /** Splicing changes no key or value of an existing node, so no other level's entries. */
  lemma SpliceOtherEntries(a: Arena, lvl: seq<int>, levels: seq<seq<int>>, l: int, j: int, k: int, v: int, below: int)
    requires SpliceReady(a, lvl, levels, l, j, k, below)
    ensures var b := Spliced(a, levels, l, j, k, v, below);
      forall m :: 0 <= m < |levels| && m != l ==> LevelEntries(b, levels[m]) == LevelEntries(a, levels[m])
  {
    var b := Spliced(a, levels, l, j, k, v, below);
    forall m | 0 <= m < |levels| && m != l
      ensures LevelEntries(b, levels[m]) == LevelEntries(a, levels[m])
    {
      forall i | 0 <= i < |levels[m]|
        ensures EntryOf(b, levels[m][i]) == EntryOf(a, levels[m][i])
      {
        assert NodeOk(a, lvl, levels, NoGap, m, i);
      }
    }
  }

  /** The entries left of the splice point have keys below k. */
  lemma SpliceLeftKeys(a: Arena, lvl: seq<int>, levels: seq<seq<int>>, l: int, j: int, k: int, below: int)
    requires SpliceReady(a, lvl, levels, l, j, k, below)
    ensures forall m :: 0 <= m < j ==> LevelEntries(a, levels[l])[m].key < k
  {
    var L := levels[l];
    var es := LevelEntries(a, L);
    forall m | 0 <= m < j
      ensures es[m].key < k
    {
      assert es[m] == EntryOf(a, L[m + 1]);
      assert NodeOk(a, lvl, levels, NoGap, l, m + 1);
      if m + 1 < j {
        Sorted(a, lvl, levels, NoGap, l, m + 1, j);
      }
    }
  }

  /** A handle put between two sentinels' worth of a level puts its entry at the same place. */
  lemma EntriesInsertAt(a: Arena, b: Arena, L: seq<int>, j: int, e: int)
    requires |L| >= 2 && 0 <= j < |L| - 1
    requires forall i :: 0 < i < |L| - 1 ==> EntryOf(b, L[i]) == EntryOf(a, L[i])
    ensures var es := LevelEntries(a, L);
      LevelEntries(b, InsertAt(L, j + 1, e)) == es[..j] + [EntryOf(b, e)] + es[j..]
  {
    var es := LevelEntries(a, L);
    var L' := InsertAt(L, j + 1, e);
    var es' := es[..j] + [EntryOf(b, e)] + es[j..];
    forall i | 0 <= i < |L'| - 2
      ensures LevelEntries(b, L')[i] == es'[i]
    {
      if i < j {
        assert L'[i + 1] == L[i + 1] && es'[i] == es[i];
      } else if i > j {
        assert L'[i + 1] == L[i] && es'[i] == es[i - 1];
      }
    }
  }

  /** A handle taken out between the sentinels takes its entry out of the same place. */
  lemma EntriesRemoveAt(a: Arena, b: Arena, L: seq<int>, j: int)
    requires 0 < j < |L| - 1
    requires forall i :: 0 < i < |L| - 1 && i != j ==> EntryOf(b, L[i]) == EntryOf(a, L[i])
    ensures var es := LevelEntries(a, L);
      LevelEntries(b, RemoveAt(L, j)) == es[..j - 1] + es[j..]
  {
    var es := LevelEntries(a, L);
    var L' := RemoveAt(L, j);
    var es' := es[..j - 1] + es[j..];
    forall i | 0 <= i < |L'| - 2
      ensures LevelEntries(b, L')[i] == es'[i]
    {
      if i < j - 1 {
        assert L'[i + 1] == L[i + 1] && es'[i] == es[i];
      } else {
        assert L'[i + 1] == L[i + 2] && es'[i] == es[i + 1];
      }
    }
  }

  /** Splicing adds the entry to level l in key order. */
  lemma SpliceEntries(a: Arena, lvl: seq<int>, levels: seq<seq<int>>, l: int, j: int, k: int, v: int, below: int)
    requires SpliceReady(a, lvl, levels, l, j, k, below)
    ensures LevelEntries(Spliced(a, levels, l, j, k, v, below), InsertAt(levels[l], j + 1, a.Size()))
            == InsertSorted(LevelEntries(a, levels[l]), Entry(k, v))
  {
    var b := Spliced(a, levels, l, j, k, v, below);
    var L := levels[l];
    var es := LevelEntries(a, L);
    assert b.key == a.key + [k] && b.value == a.value + [Some(v)];
    forall i | 0 < i < |L| - 1
      ensures EntryOf(b, L[i]) == EntryOf(a, L[i])
    {
      assert NodeOk(a, lvl, levels, NoGap, l, i);
    }
    EntriesInsertAt(a, b, L, j, a.Size());
    assert EntryOf(b, a.Size()) == Entry(k, v);
    SpliceLeftKeys(a, lvl, levels, l, j, k, below);
    assert j < |es| ==> es[j] == EntryOf(a, L[j + 1]);
    InsertSortedAt(es, j, Entry(k, v));
  }

  /**
   * Splicing key k after position j of level l keeps the structure well formed,
   * adds k's entry to that level in key order and changes no other level.
   */
  lemma SpliceWf(a: Arena, lvl: seq<int>, levels: seq<seq<int>>, l: int, j: int, k: int, v: int, below: int,
                 b: Arena, lvl': seq<int>, levels': seq<seq<int>>)
    requires SpliceReady(a, lvl, levels, l, j, k, below)
    requires b == Spliced(a, levels, l, j, k, v, below) && lvl' == lvl + [l]
    requires levels' == levels[l := InsertAt(levels[l], j + 1, a.Size())]
    ensures Wf(b, lvl', levels', NoGap)
    ensures LevelEntries(b, levels'[l]) == InsertSorted(LevelEntries(a, levels[l]), Entry(k, v))
    ensures forall m :: 0 <= m < |levels| && m != l ==> LevelEntries(b, levels'[m]) == LevelEntries(a, levels[m])
    ensures levels'[l][0] == levels[l][0] && levels'[l][|levels'[l]| - 1] == levels[l][|levels[l]| - 1]
  {
    SpliceNodes(a, lvl, levels, l, j, k, v, below, b, lvl', levels');
    SplicePlaced(lvl, levels, l, j, lvl', levels');
    SpliceEntries(a, lvl, levels, l, j, k, v, below);
    SpliceOtherEntries(a, lvl, levels, l, j, k, v, below);
    assert forall m :: 0 <= m < |levels'| ==> |levels'[m]| >= |levels[m]|;
    WfIntro(b, lvl', levels', NoGap);
  }

  /**
   * A whole list, well formed up to the gap g: `height + 1` levels, head and tail
   * the top level's sentinels.
   */
  ghost predicate GapListWf(a: Arena, lvl: seq<int>, levels: seq<seq<int>>, g: Gap, head: int, tail: int, height: int)
  {
    && Wf(a, lvl, levels, g) && |levels| == height + 1 && Topped(levels, head, tail)
    && 0 <= head < a.Size() && 0 <= tail < a.Size()
  }

  /** A whole list with no column half unlinked. */
  ghost predicate ListWf(a: Arena, lvl: seq<int>, levels: seq<seq<int>>, head: int, tail: int, height: int)
  {
    GapListWf(a, lvl, levels, NoGap, head, tail, height)
  }

  /** SpliceWf for a whole list: the splice keeps the head, the tail and the height. */
  lemma SpliceListWf(a: Arena, lvl: seq<int>, levels: seq<seq<int>>, head: int, tail: int, height: int,
                     l: int, j: int, k: int, v: int, below: int, b: Arena, lvl': seq<int>, levels': seq<seq<int>>)
    requires ListWf(a, lvl, levels, head, tail, height) && SpliceFacts(a, lvl, levels, l, j, k, below)
    requires b == Spliced(a, levels, l, j, k, v, below) && lvl' == lvl + [l]
    requires levels' == levels[l := InsertAt(levels[l], j + 1, a.Size())]
    ensures ListWf(b, lvl', levels', head, tail, height)
    ensures LevelViews(b, levels') == LevelViews(a, levels)[l := InsertSorted(LevelViews(a, levels)[l], Entry(k, v))]
  {
    SpliceWf(a, lvl, levels, l, j, k, v, below, b, lvl', levels');
    InsertKeepsTop(levels, l, j, a.Size(), head, tail);
    ViewsUpdate(a, levels, b, levels', l, InsertSorted(LevelEntries(a, levels[l]), Entry(k, v)));
  }

  /** Putting a node right after position j of a level, before its last node, keeps the top level's sentinels. */
  lemma InsertKeepsTop(levels: seq<seq<int>>, l: int, j: int, e: int, head: int, tail: int)
    requires Topped(levels, head, tail) && 0 <= l < |levels| && 0 <= j < |levels[l]| - 1
    ensures Topped(levels[l := InsertAt(levels[l], j + 1, e)], head, tail)
  {
    var levels' := levels[l := InsertAt(levels[l], j + 1, e)];
    var t := |levels| - 1;
    if l == t {
      assert levels'[t][0] == levels[t][0];
    } else {
      assert levels'[t] == levels[t];
    }
  }

  /** Wf from its parts, so that callers need not unfold it. */
  lemma WfIntro(a: Arena, lvl: seq<int>, levels: seq<seq<int>>, g: Gap)
    requires a.Ok() && |lvl| == a.Size() && |levels| >= 1
    requires forall l :: 0 <= l < |levels| ==> |levels[l]| >= 2
    requires forall l, j :: 0 <= l < |levels| && 0 <= j < |levels[l]| ==> NodeOk(a, lvl, levels, g, l, j)
    requires forall h :: 0 <= h < |lvl| ==> Placed(lvl, levels, h)
    ensures Wf(a, lvl, levels, g)
  {
  }

  /** `p.left.right = p.right; p.right.left = p.left`: p's neighbours are linked to each other. */
  function Unhook(a: Arena, p: int): Arena
    requires a.Ok() && 0 <= p < a.Size() && 0 <= a.left[p] < a.Size() && 0 <= a.right[p] < a.Size()
  {
    a.(right := a.right[a.left[p] := a.right[p]], left := a.left[a.right[p] := a.left[p]])
  }

  /**
   * After unlinking p its left and right neighbours point at each other; p keeps all its
   * own links, so the walk can still climb from it, and no key, value, up or down link changes.
   */
  lemma UnhookLinks(a: Arena, p: int)
    requires a.Ok() && 0 <= p < a.Size() && 0 <= a.left[p] < a.Size() && 0 <= a.right[p] < a.Size()
    requires a.left[p] != p && a.right[p] != p && a.left[p] != a.right[p]
    ensures var b, l, r := Unhook(a, p), a.left[p], a.right[p];
      && b.Ok() && b.Size() == a.Size()
      && b.right[l] == r && b.left[r] == l
      && b.key == a.key && b.value == a.value && b.up == a.up && b.down == a.down
      && SameNode(a, b, p) && b.left[l] == a.left[l] && b.right[r] == a.right[r]
      && forall h :: 0 <= h < a.Size() && h != l && h != r ==> SameNode(a, b, h)
  {
  }

  /** The level without the handle at position j. */
  function RemoveAt(L: seq<int>, j: int): (L': seq<int>)
    requires 0 <= j < |L|
    ensures |L'| == |L| - 1
    ensures forall m :: 0 <= m < j ==> L'[m] == L[m]
    ensures forall m :: j <= m < |L'| ==> L'[m] == L[m + 1]
  {
    L[..j] + L[j + 1..]
  }

  /**
   * The node at position j of level l, of key k, is the next one of k's column to
   * unlink: no lower level holds k any more, and its neighbours are in place.
   */
  ghost predicate UnhookFacts(a: Arena, lvl: seq<int>, levels: seq<seq<int>>, l: int, j: int, k: int)
  {
    && a.Ok() && |lvl| == a.Size() && 0 <= l < |levels| && 0 < j < |levels[l]| - 1
    && NodeOk(a, lvl, levels, Gap(l, k), l, j - 1)
    && NodeOk(a, lvl, levels, Gap(l, k), l, j)
    && NodeOk(a, lvl, levels, Gap(l, k), l, j + 1)
    && a.key[levels[l][j]] == k
    && (l > 0 ==> KeyAbsent(a, levels[l - 1], k))
  }

  ghost predicate UnhookReady(a: Arena, lvl: seq<int>, levels: seq<seq<int>>, l: int, j: int, k: int)
  {
    Wf(a, lvl, levels, Gap(l, k)) && UnhookFacts(a, lvl, levels, l, j, k)
  }

  /** A node of level l away from the unlinked one keeps its place. */
  lemma UnhookKeepsFar(a: Arena, lvl: seq<int>, levels: seq<seq<int>>, l: int, j: int, k: int, i: int, i0: int)
    requires UnhookFacts(a, lvl, levels, l, j, k)
    requires 0 <= i < |levels[l]| - 1 && i0 == (if i < j then i else i + 1)
    requires i0 < j - 1 || i0 > j + 1
    requires NodeOk(a, lvl, levels, Gap(l, k), l, i0)
    requires i0 < j - 1 ==> a.key[levels[l][i0]] < a.key[levels[l][j - 1]]
    requires i0 > j + 1 ==> a.key[levels[l][j + 1]] < a.key[levels[l][i0]]
    ensures NodeOk(Unhook(a, levels[l][j]), lvl[levels[l][j] := -1], levels[l := RemoveAt(levels[l], j)], Gap(l + 1, k), l, i)
  {
  }

  /** The unlinked node's neighbours now point at each other. */
  lemma UnhookJoins(a: Arena, lvl: seq<int>, levels: seq<seq<int>>, l: int, j: int, k: int, i: int)
    requires UnhookFacts(a, lvl, levels, l, j, k)
    requires i == j - 1 || i == j
    ensures NodeOk(Unhook(a, levels[l][j]), lvl[levels[l][j] := -1], levels[l := RemoveAt(levels[l], j)], Gap(l + 1, k), l, i)
  {
  }

  /** A node of another level keeps its place. */
  lemma UnhookKeepsOther(a: Arena, lvl: seq<int>, levels: seq<seq<int>>, l: int, j: int, k: int, m: int, i: int)
    requires UnhookFacts(a, lvl, levels, l, j, k)
    requires 0 <= m < |levels| && m != l && 0 <= i < |levels[m]|
    requires NodeOk(a, lvl, levels, Gap(l, k), m, i)
    requires m == l - 1 ==> a.key[levels[m][i]] != k
    ensures NodeOk(Unhook(a, levels[l][j]), lvl[levels[l][j] := -1], levels[l := RemoveAt(levels[l], j)], Gap(l + 1, k), m, i)
  {
  }

  /** Every node of the structure is in place after unlinking. */
  lemma UnhookNodes(a: Arena, lvl: seq<int>, levels: seq<seq<int>>, l: int, j: int, k: int,
                    b: Arena, lvl': seq<int>, levels': seq<seq<int>>, g': Gap)
    requires UnhookReady(a, lvl, levels, l, j, k)
    requires 0 <= levels[l][j] < a.Size() && 0 <= a.left[levels[l][j]] < a.Size() && 0 <= a.right[levels[l][j]] < a.Size()
    requires b == Unhook(a, levels[l][j]) && lvl' == lvl[levels[l][j] := -1]
    requires levels' == levels[l := RemoveAt(levels[l], j)] && g' == Gap(l + 1, k)
    ensures forall m, i :: 0 <= m < |levels'| && 0 <= i < |levels'[m]| ==> NodeOk(b, lvl', levels', g', m, i)
  {
    forall m, i | 0 <= m < |levels'| && 0 <= i < |levels'[m]|
      ensures NodeOk(b, lvl', levels', g', m, i)
    {
      if m != l {
        assert NodeOk(a, lvl, levels, Gap(l, k), m, i);
        UnhookKeepsOther(a, lvl, levels, l, j, k, m, i);
      } else {
        UnhookNodeLevel(a, lvl, levels, l, j, k, i);
      }
    }
  }

  /** A node left on level l is in place after the unlinking. */
  lemma UnhookNodeLevel(a: Arena, lvl: seq<int>, levels: seq<seq<int>>, l: int, j: int, k: int, i: int)
    requires UnhookReady(a, lvl, levels, l, j, k)
    requires 0 <= levels[l][j] < a.Size() && 0 <= a.left[levels[l][j]] < a.Size() && 0 <= a.right[levels[l][j]] < a.Size()
    requires 0 <= i < |levels[l]| - 1
    ensures NodeOk(Unhook(a, levels[l][j]), lvl[levels[l][j] := -1], levels[l := RemoveAt(levels[l], j)], Gap(l + 1, k), l, i)
  {
    var g := Gap(l, k);
    if i == j - 1 || i == j {
      UnhookJoins(a, lvl, levels, l, j, k, i);
    } else if i < j {
      assert NodeOk(a, lvl, levels, g, l, i);
      Sorted(a, lvl, levels, g, l, i, j - 1);
      UnhookKeepsFar(a, lvl, levels, l, j, k, i, i);
    } else {
      assert NodeOk(a, lvl, levels, g, l, i + 1);
      Sorted(a, lvl, levels, g, l, j + 1, i + 1);
      UnhookKeepsFar(a, lvl, levels, l, j, k, i, i + 1);
    }
  }

  /** Every handle is on the level its number says after unlinking; the unlinked one on none. */
  lemma UnhookPlaced(lvl: seq<int>, levels: seq<seq<int>>, l: int, j: int, lvl': seq<int>, levels': seq<seq<int>>)
    requires forall x :: 0 <= x < |lvl| ==> Placed(lvl, levels, x)
    requires 0 <= l < |levels| && 0 <= j < |levels[l]| && 0 <= levels[l][j] < |lvl|
    requires lvl' == lvl[levels[l][j] := -1] && levels' == levels[l := RemoveAt(levels[l], j)]
    ensures forall x :: 0 <= x < |lvl'| ==> Placed(lvl', levels', x)
  {
    var L := levels[l];
    forall x | 0 <= x < |lvl'|
      ensures Placed(lvl', levels', x)
    {
      assert Placed(lvl, levels, x);
      if x != L[j] && lvl[x] == l {
        var i :| 0 <= i < |L| && L[i] == x;
        assert levels'[l][if i < j then i else i - 1] == x;
      }
    }
  }

  /** Unlinking deletes k's entry from level l. */
  lemma UnhookEntries(a: Arena, lvl: seq<int>, levels: seq<seq<int>>, l: int, j: int, k: int)
    requires UnhookReady(a, lvl, levels, l, j, k)
    requires 0 <= levels[l][j] < a.Size() && 0 <= a.left[levels[l][j]] < a.Size() && 0 <= a.right[levels[l][j]] < a.Size()
    ensures LevelEntries(Unhook(a, levels[l][j]), RemoveAt(levels[l], j)) == Delete(LevelEntries(a, levels[l]), k)
  {
    var L := levels[l];
    var L' := RemoveAt(L, j);
    var b := Unhook(a, L[j]);
    var es := LevelEntries(a, L);
    LevelIncreasing(a, lvl, levels, Gap(l, k), l);
    assert es[j - 1] == EntryOf(a, L[j]);
    DeleteAt(es, j - 1);
    assert b.key == a.key && b.value == a.value;
    EntriesRemoveAt(a, b, L, j);
  }

  /** After unlinking, no node of level l carries k, and no level's entries have changed keys or values. */
  lemma UnhookAbsent(a: Arena, lvl: seq<int>, levels: seq<seq<int>>, l: int, j: int, k: int)
    requires UnhookReady(a, lvl, levels, l, j, k)
    requires 0 <= levels[l][j] < a.Size() && 0 <= a.left[levels[l][j]] < a.Size() && 0 <= a.right[levels[l][j]] < a.Size()
    ensures KeyAbsent(Unhook(a, levels[l][j]), RemoveAt(levels[l], j), k)
    ensures forall m :: 0 <= m < |levels| ==> LevelEntries(Unhook(a, levels[l][j]), levels[m]) == LevelEntries(a, levels[m])
  {
    var L := levels[l];
    var L' := RemoveAt(L, j);
    var b := Unhook(a, L[j]);
    var g := Gap(l, k);
    forall i | 0 <= i < |L'| && 0 <= L'[i] < |b.key|
      ensures b.key[L'[i]] != k
    {
      if i < j {
        Sorted(a, lvl, levels, g, l, i, j);
      } else {
        Sorted(a, lvl, levels, g, l, j, i + 1);
      }
    }
  }

  /**
   * Unlinking the node of key k from level l keeps the structure well formed, now
   * with the gap one level up, and removes k's entry from that level only.
   */
  lemma UnhookWf(a: Arena, lvl: seq<int>, levels: seq<seq<int>>, l: int, j: int, k: int,
                 b: Arena, lvl': seq<int>, levels': seq<seq<int>>)
    requires UnhookReady(a, lvl, levels, l, j, k)
    requires 0 <= levels[l][j] < a.Size() && 0 <= a.left[levels[l][j]] < a.Size() && 0 <= a.right[levels[l][j]] < a.Size()
    requires b == Unhook(a, levels[l][j]) && lvl' == lvl[levels[l][j] := -1]
    requires levels' == levels[l := RemoveAt(levels[l], j)]
    ensures Wf(b, lvl', levels', Gap(l + 1, k))
    ensures LevelEntries(b, levels'[l]) == Delete(LevelEntries(a, levels[l]), k)
    ensures forall m :: 0 <= m < |levels| && m != l ==> LevelEntries(b, levels'[m]) == LevelEntries(a, levels[m])
    ensures KeyAbsent(b, levels'[l], k)
  {
    var g' := Gap(l + 1, k);
    UnhookNodes(a, lvl, levels, l, j, k, b, lvl', levels', g');
    UnhookPlaced(lvl, levels, l, j, lvl', levels');
    UnhookEntries(a, lvl, levels, l, j, k);
    UnhookAbsent(a, lvl, levels, l, j, k);
    assert forall m :: 0 <= m < |levels'| ==> |levels'[m]| >= 2 by {
      forall m | 0 <= m < |levels'|
        ensures |levels'[m]| >= 2
      {
        assert |levels[m]| >= 2;
      }
    }
    WfIntro(b, lvl', levels', g');
  }

  /** The views of the levels once level l's entries have become x and every other level's are kept. */
  lemma ViewsUpdate(a: Arena, levels: seq<seq<int>>, b: Arena, levels': seq<seq<int>>, l: int, x: seq<Entry>)
    requires |levels'| == |levels| && 0 <= l < |levels| && LevelEntries(b, levels'[l]) == x
    requires forall m :: 0 <= m < |levels| && m != l ==> LevelEntries(b, levels'[m]) == LevelEntries(a, levels[m])
    ensures LevelViews(b, levels') == LevelViews(a, levels)[l := x]
  {
  }

  /** UnhookWf for a whole list: unlinking an inner node keeps the head, the tail and the height. */
  lemma UnhookListWf(a: Arena, lvl: seq<int>, levels: seq<seq<int>>, head: int, tail: int, height: int,
                     l: int, j: int, k: int, b: Arena, lvl': seq<int>, levels': seq<seq<int>>)
    requires GapListWf(a, lvl, levels, Gap(l, k), head, tail, height) && UnhookFacts(a, lvl, levels, l, j, k)
    requires 0 <= levels[l][j] < a.Size() && 0 <= a.left[levels[l][j]] < a.Size() && 0 <= a.right[levels[l][j]] < a.Size()
    requires b == Unhook(a, levels[l][j]) && lvl' == lvl[levels[l][j] := -1]
    requires levels' == levels[l := RemoveAt(levels[l], j)]
    ensures GapListWf(b, lvl', levels', Gap(l + 1, k), head, tail, height)
    ensures LevelViews(b, levels') == LevelViews(a, levels)[l := Delete(LevelViews(a, levels)[l], k)]
    ensures KeyAbsent(b, levels'[l], k)
  {
    UnhookWf(a, lvl, levels, l, j, k, b, lvl', levels');
    RemoveKeepsTop(levels, l, j, head, tail);
    ViewsUpdate(a, levels, b, levels', l, Delete(LevelEntries(a, levels[l]), k));
  }

  /** Removing an inner node of a level keeps the top level's sentinels. */
  lemma RemoveKeepsTop(levels: seq<seq<int>>, l: int, j: int, head: int, tail: int)
    requires Topped(levels, head, tail) && 0 <= l < |levels| && 0 < j < |levels[l]| - 1
    ensures Topped(levels[l := RemoveAt(levels[l], j)], head, tail)
  {
    var levels' := levels[l := RemoveAt(levels[l], j)];
    var t := |levels| - 1;
    if l == t {
      assert levels'[t][0] == levels[t][0];
      assert levels'[t][|levels'[t]| - 1] == levels[t][|levels[t]| - 1];
    } else {
      assert levels'[t] == levels[t];
    }
  }

  /** No node of a level has key k when k falls strictly between two neighbours' keys. */
  lemma LevelBetween(a: Arena, lvl: seq<int>, levels: seq<seq<int>>, g: Gap, l: int, j: int, k: int)
    requires Wf(a, lvl, levels, g) && 0 <= l < |levels| && 0 <= j < |levels[l]| - 1
    requires 0 <= levels[l][j] < a.Size() && 0 <= levels[l][j + 1] < a.Size()
    requires a.key[levels[l][j]] < k < a.key[levels[l][j + 1]]
    ensures KeyAbsent(a, levels[l], k)
  {
    forall i | 0 <= i < |levels[l]| && 0 <= levels[l][i] < |a.key|
      ensures a.key[levels[l][i]] != k
    {
      if i < j {
        Sorted(a, lvl, levels, g, l, i, j);
      } else if j + 1 < i {
        Sorted(a, lvl, levels, g, l, j + 1, i);
      }
    }
  }

  /**
   * Once the node of key k on level l has no up link, no higher level holds k:
   * every node of k above would point down to a node of k that points back up.
   */
  lemma {:induction false} ColumnTop(a: Arena, lvl: seq<int>, levels: seq<seq<int>>, l: int, j: int, k: int, m: int)
    requires Wf(a, lvl, levels, Gap(l, k)) && 0 <= l < m < |levels| && 0 <= j < |levels[l]|
    requires 0 <= levels[l][j] < a.Size() && a.key[levels[l][j]] == k && a.up[levels[l][j]] == Nil
    ensures KeyAbsent(a, levels[m], k)
    decreases m
  {
    forall i | 0 <= i < |levels[m]| && 0 <= levels[m][i] < |a.key|
      ensures a.key[levels[m][i]] != k
    {
      var x := levels[m][i];
      assert NodeOk(a, lvl, levels, Gap(l, k), m, i);
      if a.key[x] == k {
        var d := a.down[x];
        var i' := Locate(a, lvl, levels, Gap(l, k), d);
        if m - 1 == l {
          if i' < j {
            Sorted(a, lvl, levels, Gap(l, k), l, i', j);
          } else if j < i' {
            Sorted(a, lvl, levels, Gap(l, k), l, j, i');
          }
        } else {
          ColumnTop(a, lvl, levels, l, j, k, m - 1);
        }
      }
    }
  }

  /** The gap matters only where its key is: without it the structure is well formed outright. */
  lemma GapClosed(a: Arena, lvl: seq<int>, levels: seq<seq<int>>, g: Gap)
    requires Wf(a, lvl, levels, g)
    requires 0 <= g.level < |levels| ==> KeyAbsent(a, levels[g.level], g.key)
    ensures Wf(a, lvl, levels, NoGap)
  {
    forall l, j | 0 <= l < |levels| && 0 <= j < |levels[l]|
      ensures NodeOk(a, lvl, levels, NoGap, l, j)
    {
      assert NodeOk(a, lvl, levels, g, l, j);
    }
  }

  /** A gap on the bottom level exempts nothing, since bottom nodes have no down link. */
  lemma GapAtBottom(a: Arena, lvl: seq<int>, levels: seq<seq<int>>, k: int)
    requires Wf(a, lvl, levels, NoGap)
    ensures Wf(a, lvl, levels, Gap(0, k))
  {
    forall l, j | 0 <= l < |levels| && 0 <= j < |levels[l]|
      ensures NodeOk(a, lvl, levels, Gap(0, k), l, j)
    {
      assert NodeOk(a, lvl, levels, NoGap, l, j);
    }
  }

  /**
   * Walking left from the tower top q along level i, p is the first node with an up
   * link. Then p's up link is k's predecessor on level i + 1: no node of that level
   * has a key in between, for its down link would land strictly between p and q,
   * where no node has an up link.
   */
  lemma ClimbTarget(a: Arena, lvl: seq<int>, levels: seq<seq<int>>, i: int, pj: int, qj: int) returns (uj: int)
    requires Wf(a, lvl, levels, NoGap) && 0 <= i < |levels| - 1 && 0 <= pj < qj < |levels[i]|
    requires 0 <= levels[i][pj] < a.Size() && 0 <= levels[i][qj] < a.Size()
    requires a.up[levels[i][qj]] == Nil && a.up[levels[i][pj]] != Nil
    requires forall m :: pj < m < qj ==> 0 <= levels[i][m] < a.Size() && a.up[levels[i][m]] == Nil
    ensures SpliceFacts(a, lvl, levels, i + 1, uj, a.key[levels[i][qj]], levels[i][qj])
    ensures levels[i + 1][uj] == a.up[levels[i][pj]]
  {
    var p, q := levels[i][pj], levels[i][qj];
    assert NodeOk(a, lvl, levels, NoGap, i, pj);
    var u := a.up[p];
    uj := Locate(a, lvl, levels, NoGap, u);
    Sorted(a, lvl, levels, NoGap, i, pj, qj);
    KeyBounds(a, lvl, levels, NoGap, i, qj);
    assert NodeOk(a, lvl, levels, NoGap, i, qj);
    assert NodeOk(a, lvl, levels, NoGap, i + 1, uj);
    assert NodeOk(a, lvl, levels, NoGap, i + 1, uj + 1);
    var r := levels[i + 1][uj + 1];
    var d := a.down[r];
    var dm := Locate(a, lvl, levels, NoGap, d);
    if dm <= pj {
      if dm < pj {
        Sorted(a, lvl, levels, NoGap, i, dm, pj);
      }
    } else if a.key[r] <= a.key[q] {
      if dm > qj {
        Sorted(a, lvl, levels, NoGap, i, qj, dm);
      }
    }
  }

  /** A new bottom node of key k fits right after position j when k lies strictly between its neighbours' keys. */
  lemma BottomSplice(a: Arena, lvl: seq<int>, levels: seq<seq<int>>, j: int, k: int)
    requires Wf(a, lvl, levels, NoGap) && 0 <= j < |levels[0]| - 1
    requires 0 <= levels[0][j] < a.Size() && 0 <= levels[0][j + 1] < a.Size()
    requires a.key[levels[0][j]] < k < a.key[levels[0][j + 1]]
    ensures SpliceFacts(a, lvl, levels, 0, j, k, Nil)
  {
    assert NodeOk(a, lvl, levels, NoGap, 0, j);
    assert NodeOk(a, lvl, levels, NoGap, 0, j + 1);
  }

  /** The arena of a new list: `head(MIN_VALUE)` and `tail(MAX_VALUE)` linked to each other. */
  function Initial(): Arena
  {
    var a := Arena([], [], [], [], [], []).New(MinValue, None).New(MaxValue, None);
    a.(right := a.right[0 := 1]).(left := a.left[1 := 0])
  }

  /** A new list is well formed and empty. */
  lemma InitialWf()
    ensures Wf(Initial(), [0, 0], [[0, 1]], NoGap)
    ensures Topped([[0, 1]], 0, 1)
    ensures LevelEntries(Initial(), [0, 1]) == []
  {
    var a := Initial();
    assert NodeOk(a, [0, 0], [[0, 1]], NoGap, 0, 0);
    assert NodeOk(a, [0, 0], [[0, 1]], NoGap, 0, 1);
    assert Placed([0, 0], [[0, 1]], 0) && Placed([0, 0], [[0, 1]], 1);
  }

  /** A key missing from the bottom level is missing from every level, for towers stand on it. */
  lemma {:induction false} AbsentAbove(a: Arena, lvl: seq<int>, levels: seq<seq<int>>, k: int, m: int)
    requires Wf(a, lvl, levels, NoGap) && 0 <= m < |levels| && KeyAbsent(a, levels[0], k)
    ensures KeyAbsent(a, levels[m], k)
    decreases m
  {
    if m > 0 {
      AbsentAbove(a, lvl, levels, k, m - 1);
      forall i | 0 <= i < |levels[m]| && 0 <= levels[m][i] < |a.key|
        ensures a.key[levels[m][i]] != k
      {
        assert NodeOk(a, lvl, levels, NoGap, m, i);
        var i' := Locate(a, lvl, levels, NoGap, a.down[levels[m][i]]);
      }
    }
  }

  /** A level without a node of key k has no entry of key k, so deleting k leaves its entries alone. */
  lemma AbsentEntries(a: Arena, L: seq<int>, k: int)
    requires forall i :: 0 <= i < |L| ==> 0 <= L[i] < |a.key| && |a.key| == |a.value|
    requires KeyAbsent(a, L, k)
    ensures Delete(LevelEntries(a, L), k) == LevelEntries(a, L)
  {
    var es := LevelEntries(a, L);
    forall i | 0 <= i < |es|
      ensures es[i].key != k
    {
      assert es[i] == EntryOf(a, L[i + 1]);
    }
    DeleteAbsent(es, k);
  }

  /** A level without a node of key k is left alone by deleting k. */
  lemma AbsentLevel(a: Arena, lvl: seq<int>, levels: seq<seq<int>>, g: Gap, m: int, k: int)
    requires Wf(a, lvl, levels, g) && 0 <= m < |levels| && KeyAbsent(a, levels[m], k)
    ensures Delete(LevelEntries(a, levels[m]), k) == LevelEntries(a, levels[m])
  {
    forall i | 0 <= i < |levels[m]|
      ensures 0 <= levels[m][i] < |a.key| && |a.key| == |a.value|
    {
      assert NodeOk(a, lvl, levels, g, m, i);
    }
    AbsentEntries(a, levels[m], k);
  }

  /** Levels l and up lose nothing to deleting k when none of their nodes carries k. */
  lemma AbsentFrom(a: Arena, lvl: seq<int>, levels: seq<seq<int>>, l: int, k: int)
    requires Wf(a, lvl, levels, NoGap) && 0 <= l
    requires forall m :: l <= m < |levels| ==> KeyAbsent(a, levels[m], k)
    ensures forall m :: l <= m < |levels| ==> Delete(LevelViews(a, levels)[m], k) == LevelViews(a, levels)[m]
  {
    forall m | l <= m < |levels|
      ensures Delete(LevelViews(a, levels)[m], k) == LevelViews(a, levels)[m]
    {
      AbsentLevel(a, lvl, levels, NoGap, m, k);
    }
  }

  /** A key missing from the bottom level is deleted from no level. */
  lemma AbsentLevels(a: Arena, lvl: seq<int>, levels: seq<seq<int>>, k: int)
    requires Wf(a, lvl, levels, NoGap) && KeyAbsent(a, levels[0], k)
    ensures forall m :: 0 <= m < |levels| ==> Delete(LevelViews(a, levels)[m], k) == LevelViews(a, levels)[m]
  {
    forall m | 0 <= m < |levels|
      ensures Delete(LevelViews(a, levels)[m], k) == LevelViews(a, levels)[m]
    {
      AbsentAbove(a, lvl, levels, k, m);
      AbsentLevel(a, lvl, levels, NoGap, m, k);
    }
  }

  /**
   * The next node of k's column above the node at position j of level l: its up
   * link, which is k's node on level l + 1, or null when no higher level holds k.
   */
  lemma ColumnNext(a: Arena, lvl: seq<int>, levels: seq<seq<int>>, l: int, j: int, k: int) returns (uj: int)
    requires Wf(a, lvl, levels, Gap(l, k)) && 0 <= l < |levels| && 0 < j < |levels[l]| - 1
    requires 0 <= levels[l][j] < a.Size() && a.key[levels[l][j]] == k
    ensures a.up[levels[l][j]] == Nil ==> forall m :: l < m < |levels| ==> KeyAbsent(a, levels[m], k)
    ensures a.up[levels[l][j]] != Nil ==>
              && l + 1 < |levels| && 0 < uj < |levels[l + 1]| - 1 && levels[l + 1][uj] == a.up[levels[l][j]]
              && 0 <= a.up[levels[l][j]] < a.Size() && a.key[a.up[levels[l][j]]] == k
  {
    var p := levels[l][j];
    uj := 0;
    if a.up[p] == Nil {
      forall m | l < m < |levels|
        ensures KeyAbsent(a, levels[m], k)
      {
        ColumnTop(a, lvl, levels, l, j, k, m);
      }
    } else {
      assert NodeOk(a, lvl, levels, Gap(l, k), l, j);
      KeyBounds(a, lvl, levels, Gap(l, k), l, j);
      uj := Locate(a, lvl, levels, Gap(l, k), a.up[p]);
      assert NodeOk(a, lvl, levels, Gap(l, k), l + 1, uj);
    }
  }

  /**
   * One step of unlinking k's column: the node at position j of level l leaves its
   * level, the gap moves up, and the next node of the column, if any, is found.
   */
  lemma UnlinkStep(a: Arena, lvl: seq<int>, levels: seq<seq<int>>, head: int, tail: int, height: int,
                   l: int, j: int, k: int) returns (uj: int)
    requires GapListWf(a, lvl, levels, Gap(l, k), head, tail, height)
    requires 0 <= l < |levels| && 0 < j < |levels[l]| - 1
    requires 0 <= levels[l][j] < a.Size() && a.key[levels[l][j]] == k
    requires l > 0 ==> KeyAbsent(a, levels[l - 1], k)
    ensures 0 <= a.left[levels[l][j]] < a.Size() && 0 <= a.right[levels[l][j]] < a.Size()
    ensures a.left[levels[l][j]] != levels[l][j] && a.right[levels[l][j]] != levels[l][j]
    ensures var b, lvl', levels' := Unhook(a, levels[l][j]), lvl[levels[l][j] := -1], levels[l := RemoveAt(levels[l], j)];
      var u := a.up[levels[l][j]];
      && GapListWf(b, lvl', levels', Gap(l + 1, k), head, tail, height)
      && LevelViews(b, levels') == LevelViews(a, levels)[l := Delete(LevelViews(a, levels)[l], k)]
      && KeyAbsent(b, levels'[l], k)
      && (u == Nil ==> forall m :: l < m < |levels'| ==> KeyAbsent(b, levels'[m], k))
      && (u != Nil ==> l + 1 < |levels'| && 0 < uj < |levels'[l + 1]| - 1 && u == levels'[l + 1][uj])
      && (u != Nil ==> 0 <= u < b.Size() && b.key[u] == k)
  {
    var p := levels[l][j];
    var g := Gap(l, k);
    assert NodeOk(a, lvl, levels, g, l, j - 1);
    assert NodeOk(a, lvl, levels, g, l, j);
    assert NodeOk(a, lvl, levels, g, l, j + 1);
    uj := ColumnNext(a, lvl, levels, l, j, k);
    var b, lvl', levels' := Unhook(a, p), lvl[p := -1], levels[l := RemoveAt(levels[l], j)];
    UnhookListWf(a, lvl, levels, head, tail, height, l, j, k, b, lvl', levels');
    assert b.key == a.key && b.up == a.up;
    assert forall m :: 0 <= m < |levels'| && m != l ==> levels'[m] == levels[m];
  }
}
