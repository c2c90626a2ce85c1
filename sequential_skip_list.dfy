/**
 * The sequential skip list: a quad-linked list of levels, each bracketed by
 * MIN_VALUE and MAX_VALUE sentinels, whose bottom level holds every entry and
 * whose upper levels hold towers of some of them.
 */
module SequentialSkipList {
  import opened Wrappers
  import opened SkipListEntries
  import opened SkipListNodes

  /** A call that returns, or one that dereferences null and throws NullPointerException. */
  datatype Outcome<T> = Ok(value: T) | NullPointer

  /** How many coin flips come up true before the first false one (or the end of the flips). */
  function LeadingTrues(flips: seq<bool>): (t: nat)
    ensures t <= |flips|
  {
    if |flips| == 0 || !flips[0] then 0 else 1 + LeadingTrues(flips[1..])
  }

  /** The flips counted are all true and the first one after them, if any, is false. */
  lemma {:induction false} LeadingTruesRun(flips: seq<bool>)
    ensures forall c :: 0 <= c < LeadingTrues(flips) ==> flips[c]
    ensures LeadingTrues(flips) < |flips| ==> !flips[LeadingTrues(flips)]
  {
    if |flips| > 0 && flips[0] {
      LeadingTruesRun(flips[1..]);
      assert forall c :: 0 < c < LeadingTrues(flips) ==> flips[c] == flips[1..][c - 1];
    }
  }

  function Max(x: int, y: int): int
  {
    if x < y then y else x
  }

  /** The levels with an empty level put on top when level t does not exist yet. */
  function WithRoom(ls: seq<seq<Entry>>, t: nat): (r: seq<seq<Entry>>)
    requires t <= |ls|
    ensures |r| == Max(|ls|, t + 1)
  {
    if |ls| <= t then ls + [[]] else ls
  }

  /** Entry e added to level t, once there is room for it. */
  function Grown(ls: seq<seq<Entry>>, e: Entry, t: nat): (r: seq<seq<Entry>>)
    requires t <= |ls|
    ensures |r| == Max(|ls|, t + 1)
  {
    WithRoom(ls, t)[t := InsertSorted(WithRoom(ls, t)[t], e)]
  }

  /**
   * The entries of the levels once entry e's tower reaches level t: each of levels
   * 0 to t gains e, an empty level being put on top first whenever the tower
   * outgrows the list.
   */
  function Towered(ls: seq<seq<Entry>>, e: Entry, t: nat): (r: seq<seq<Entry>>)
    requires |ls| >= 1
    ensures |r| == Max(|ls|, t + 1)
  {
    Grown(if t == 0 then ls else Towered(ls, e, t - 1), e, t)
  }

  /** Level by level: levels up to t hold e besides what they held, the levels above are as they were. */
  lemma {:induction false} ToweredLevels(ls: seq<seq<Entry>>, e: Entry, t: nat)
    requires |ls| >= 1
    ensures forall m :: 0 <= m < |Towered(ls, e, t)| ==>
              Towered(ls, e, t)[m] == if m <= t then InsertSorted(if m < |ls| then ls[m] else [], e) else ls[m]
  {
    if t > 0 {
      ToweredLevels(ls, e, t - 1);
    }
  }

  /** Whatever the height of its tower, the new entry lands in the bottom level. */
  lemma {:induction false} ToweredBottom(ls: seq<seq<Entry>>, e: Entry, t: nat)
    requires |ls| >= 1
    ensures Towered(ls, e, t)[0] == InsertSorted(ls[0], e)
  {
    if t > 0 {
      ToweredBottom(ls, e, t - 1);
    }
  }

  /** The entries of the levels once the column of key k is unlinked from levels 0 to n - 1. */
  function Unlinked(ls: seq<seq<Entry>>, k: int, n: nat): (r: seq<seq<Entry>>)
    ensures |r| == |ls|
  {
    if n == 0 then ls
    else
      var below := Unlinked(ls, k, n - 1);
      if n - 1 < |below| then below[n - 1 := Delete(below[n - 1], k)] else below
  }

  /** Level by level: the levels below n have lost k, the others are as they were. */
  lemma {:induction false} UnlinkedLevels(ls: seq<seq<Entry>>, k: int, n: nat)
    ensures forall m :: 0 <= m < |ls| ==> Unlinked(ls, k, n)[m] == if m < n then Delete(ls[m], k) else ls[m]
  {
    if n > 0 {
      UnlinkedLevels(ls, k, n - 1);
    }
  }

  /** Once no level from n up holds k, unlinking levels 0 to n - 1 has deleted k everywhere. */
  lemma UnlinkedAll(ls: seq<seq<Entry>>, k: int, n: nat)
    requires forall m :: n <= m < |ls| ==> Delete(Unlinked(ls, k, n)[m], k) == Unlinked(ls, k, n)[m]
    ensures forall m :: 0 <= m < |ls| ==> Unlinked(ls, k, n)[m] == Delete(ls[m], k)
  {
    UnlinkedLevels(ls, k, n);
  }

  class SkipList {
    /** Every node ever allocated, by handle. */
    var nodes: Arena
    /** The top level's sentinels. */
    var head: int
    var tail: int
    /** Counts successful inserts; remove does not decrement it. */
    var numEntries: int
    /** The index of the top level. */
    var height: int
    /** The handles of each level from head sentinel to tail sentinel, bottom level first. */
    ghost var levels: seq<seq<int>>
    /** The level of each handle, or -1 once it has been unlinked. */
    ghost var lvl: seq<int>

    ghost predicate Valid()
      reads this
    {
      ListWf(nodes, lvl, levels, head, tail, height)
    }

    /** The entries of every level, bottom level first. */
    ghost function Levels(): seq<seq<Entry>>
      reads this`nodes, this`levels
    {
      LevelViews(nodes, levels)
    }

    /**
     * q, of key k, is the top of a tower under construction, at position qj of
     * level i, and p is its left neighbour.
     */
    ghost predicate TowerTop(p: int, q: int, k: int, i: int, qj: int)
      reads this`nodes, this`levels
    {
      && 0 <= i < |levels| && 0 < qj < |levels[i]| - 1 && q == levels[i][qj] && p == levels[i][qj - 1]
      && nodes.Ok() && 0 <= q < nodes.Size() && nodes.key[q] == k && nodes.up[q] == Nil
    }

    /** The map the list stands for: the bottom level's entries, in strictly increasing key order. */
    ghost function Entries(): (es: seq<Entry>)
      reads this
      requires Valid()
      ensures Increasing(es)
    {
      LevelIncreasing(nodes, lvl, levels, NoGap, 0);
      Levels()[0]
    }

    /** An empty list: one level holding only the two sentinels. */
    constructor ()
      ensures Valid() && height == 0 && numEntries == 0 && Levels() == [[]]
    {
      var a := Arena([], [], [], [], [], []);
      var n1 := a.Size();
      a := a.New(MinValue, None);
      var n2 := a.Size();
      a := a.New(MaxValue, None);
      a := a.(right := a.right[n1 := n2]);
      a := a.(left := a.left[n2 := n1]);
      nodes := a;
      head, tail := n1, n2;
      numEntries := 0;
      height := 0;
      levels := [[n1, n2]];
      lvl := [0, 0];
      InitialWf();
    }

    /**
     * The bottom-level node with the largest key at most k. With k == MAX_VALUE the
     * walk steps onto the tail sentinel and then dereferences its null right link.
     */
    method Find(k: Int32) returns (r: Outcome<int>, ghost j: int)
      requires Valid()
      ensures r.NullPointer? <==> k == MaxValue
      ensures r.Ok? ==> 0 <= j < |levels[0]| - 1 && levels[0][j] == r.value
      ensures r.Ok? ==> 0 <= r.value < nodes.Size() && 0 <= levels[0][j + 1] < nodes.Size()
      ensures r.Ok? ==> nodes.key[r.value] <= k < nodes.key[levels[0][j + 1]]
    {
      var n := head;
      ghost var l := height;
      j := 0;
      assert NodeOk(nodes, lvl, levels, NoGap, l, 0);
      while true
        invariant 0 <= l < |levels| && 0 <= j < |levels[l]| && n == levels[l][j]
        invariant 0 <= n < nodes.Size() && nodes.key[n] <= k
        decreases l
      {
        // Walk right along the level past keys no larger than k
        while true
          invariant 0 <= j < |levels[l]| && n == levels[l][j]
          invariant 0 <= n < nodes.Size() && nodes.key[n] <= k
          decreases |levels[l]| - j
        {
          assert NodeOk(nodes, lvl, levels, NoGap, l, j);
          if nodes.right[n] == Nil {
            return NullPointer, j;
          }
          if nodes.key[nodes.right[n]] > k {
            break;
          }
          n := nodes.right[n];
          j := j + 1;
        }
        assert NodeOk(nodes, lvl, levels, NoGap, l, j);
        KeyBounds(nodes, lvl, levels, NoGap, l, j + 1);
        // Descend a level, or stop on the bottom one
        if nodes.down[n] != Nil {
          n := nodes.down[n];
          l := l - 1;
          j := Locate(nodes, lvl, levels, NoGap, n);
        } else {
          break;
        }
      }
      r := Ok(n);
    }

    /** The value stored under k, or none; k == MAX_VALUE fails in Find. */
    method Get(k: Int32) returns (r: Outcome<Option<int>>)
      requires Valid()
      ensures r.NullPointer? <==> k == MaxValue
      ensures r.Ok? ==> r.value == Lookup(Entries(), k)
    {
      var found, j := Find(k);
      if found.NullPointer? {
        return NullPointer;
      }
      var n := found.value;
      LevelLookup(nodes, lvl, levels, NoGap, 0, j, k);
      if nodes.key[n] == k {
        r := Ok(nodes.value[n]);
      } else {
        r := Ok(None);
      }
    }
 
    /**
     * A new empty top level: two fresh sentinels stacked on the old head and tail,
     * which become the new head and tail.
     */
    method AddLevel()
      requires Valid()
      modifies this
      ensures Valid()
      ensures nodes == Stack(old(nodes), old(head), old(tail))
      ensures levels == old(levels) + [[old(nodes.Size()), old(nodes.Size()) + 1]]
      ensures lvl == old(lvl) + [old(|levels|), old(|levels|)]
      ensures head == old(nodes.Size()) && tail == old(nodes.Size()) + 1
      ensures height == old(height) + 1 && numEntries == old(numEntries)
      ensures forall x :: 0 <= x < old(nodes.Size()) && x != old(head) && x != old(tail) ==>
        nodes.key[x] == old(nodes.key[x]) && nodes.up[x] == old(nodes.up[x])
      ensures Levels() == old(Levels()) + [[]]
    {
      ghost var a := nodes;
      StackListWf(nodes, lvl, levels, head, tail, height);
      var n1 := nodes.Size();
      nodes := nodes.New(MinValue, None);
      var n2 := nodes.Size();
      nodes := nodes.New(MaxValue, None);
      // The two sentinels point at each other and stand on the old ones
      nodes := nodes.(right := nodes.right[n1 := n2]);
      nodes := nodes.(left := nodes.left[n2 := n1]);
      nodes := nodes.(down := nodes.down[n1 := head]);
      nodes := nodes.(down := nodes.down[n2 := tail]);
      nodes := nodes.(up := nodes.up[head := n1]);
      nodes := nodes.(up := nodes.up[tail := n2]);
      assert nodes == Stack(a, head, tail);
      lvl := lvl + [|levels|, |levels|];
      levels := levels + [[n1, n2]];
      // The new sentinels become the top level
      head := n1;
      tail := n2;
      height := height + 1;
    }

    /**
     * A fresh node of key k and value v, put right after p, which sits at position
     * j of level l; on an upper level it also stands on `below`, the top of k's tower.
     */
    method SpliceAfter(p: int, k: Int32, v: int, below: int, ghost l: int, ghost j: int) returns (e: int)
      requires Valid() && SpliceFacts(nodes, lvl, levels, l, j, k, below) && p == levels[l][j]
      modifies this
      ensures Valid()
      ensures e == old(nodes.Size()) && 0 <= e < nodes.Size() && nodes.key[e] == k && nodes.up[e] == Nil
      ensures nodes == Spliced(old(nodes), old(levels), l, j, k, v, below)
      ensures lvl == old(lvl) + [l] && levels == old(levels)[l := InsertAt(old(levels)[l], j + 1, e)]
      ensures TowerTop(p, e, k, l, j + 1)
      ensures head == old(head) && tail == old(tail) && height == old(height) && numEntries == old(numEntries)
      ensures Levels() == old(Levels())[l := InsertSorted(old(Levels())[l], Entry(k, v))]
    {
      var b := nodes;
      e := b.Size();
      b := b.New(k, Some(v));
      b := b.(left := b.left[e := p]);
      b := b.(right := b.right[e := b.right[p]]);
      // p and its old right neighbour now point at e
      b := b.(left := b.left[b.right[p] := e]);
      b := b.(right := b.right[p := e]);
      if below != Nil {
        // Stack the new node on the tower below it
        b := b.(down := b.down[e := below]);
        b := b.(up := b.up[below := e]);
      }
      assert b == Spliced(nodes, levels, l, j, k, v, below);
      ghost var lvl', levels' := lvl + [l], levels[l := InsertAt(levels[l], j + 1, e)];
      SpliceListWf(nodes, lvl, levels, head, tail, height, l, j, k, v, below, b, lvl', levels');
      nodes, lvl, levels := b, lvl', levels';
    }

    /**
     * From p, left of q on level i, walks left to the nearest node with an up link
     * and climbs it; the node reached on level i + 1 is the one q's tower node goes after.
     */
    method ClimbLeft(p: int, q: int, k: Int32, ghost i: int, ghost qj: int) returns (u: int, ghost uj: int)
      requires Valid() && i < height && TowerTop(p, q, k, i, qj)
      ensures SpliceFacts(nodes, lvl, levels, i + 1, uj, k, q) && u == levels[i + 1][uj]
    {
      HeadsStacked(nodes, lvl, levels, i + 1);
      u := p;
      ghost var pj := qj - 1;
      KeyBounds(nodes, lvl, levels, NoGap, i, pj);
      while nodes.up[u] == Nil
        invariant 0 <= pj < qj && u == levels[i][pj] && 0 <= u < nodes.Size()
        invariant forall m :: pj < m < qj ==> 0 <= levels[i][m] < nodes.Size() && nodes.up[levels[i][m]] == Nil
        decreases pj
      {
        assert NodeOk(nodes, lvl, levels, NoGap, i, pj);
        u := nodes.left[u];
        pj := pj - 1;
        assert NodeOk(nodes, lvl, levels, NoGap, i, pj);
      }
      assert NodeOk(nodes, lvl, levels, NoGap, i, pj);
      uj := ClimbTarget(nodes, lvl, levels, i, pj, qj);
      u := nodes.up[u];
    }

    /**
     * A new empty top level when the tower whose top is q, at position qj of level i,
     * has reached the top level; p is q's left neighbour.
     */
    method MakeRoom(p: int, q: int, k: Int32, i: int, ghost qj: int)
      requires Valid() && TowerTop(p, q, k, i, qj)
      modifies this
      ensures Valid() && height == Max(old(height), i + 1) && numEntries == old(numEntries)
      ensures TowerTop(p, q, k, i, qj)
      ensures Levels() == WithRoom(old(Levels()), i + 1)
    {
      if i >= height {
        assert NodeOk(nodes, lvl, levels, NoGap, height, 0);
        assert NodeOk(nodes, lvl, levels, NoGap, height, |levels[height]| - 1);
        assert NodeOk(nodes, lvl, levels, NoGap, i, qj - 1);
        assert NodeOk(nodes, lvl, levels, NoGap, i, qj);
        assert q != head && q != tail;
        // The tower has reached the top: stack an empty level
        AddLevel();
      }
    }

    /**
     * One more level of the tower whose top is q, of key k, at position qj of level i,
     * with p on its left: a new top level first if the tower has reached the top.
     */
    method GrowTower(p: int, q: int, k: Int32, v: int, i: int, ghost qj: int)
      returns (p': int, q': int, ghost qj': int)
      requires Valid() && TowerTop(p, q, k, i, qj)
      modifies this
      ensures Valid() && height == Max(old(height), i + 1) && numEntries == old(numEntries)
      ensures TowerTop(p', q', k, i + 1, qj')
      ensures Levels() == Grown(old(Levels()), Entry(k, v), i + 1)
    {
      MakeRoom(p, q, k, i, qj);
      ghost var uj;
      p', uj := ClimbLeft(p, q, k, i, qj);
      // The tower's node on level i + 1 goes right after p'
      q' := SpliceAfter(p', k, v, q, i + 1, uj);
      qj' := uj + 1;
    }

    /**
     * Grows the tower of the new bottom node q, of key k, one level per leading true
     * coin flip; running out of flips ends the tower like a false one. `before` is
     * what the levels held before q went in.
     */
    method BuildTower(p: int, q: int, k: Int32, v: int, flips: seq<bool>, ghost qj: int, ghost before: seq<seq<Entry>>)
      requires Valid() && TowerTop(p, q, k, 0, qj)
      requires |before| == |levels| && Levels() == Towered(before, Entry(k, v), 0)
      modifies this
      ensures Valid() && height == Max(old(height), LeadingTrues(flips)) && numEntries == old(numEntries)
      ensures Levels() == Towered(before, Entry(k, v), LeadingTrues(flips))
    {
      var p, q, i, rest := p, q, 0, flips;
      ghost var qj := qj;
      while |rest| > 0 && rest[0]
        invariant Valid() && height == Max(old(height), i) && i < |levels|
        invariant LeadingTrues(flips) == i + LeadingTrues(rest)
        invariant TowerTop(p, q, k, i, qj)
        invariant numEntries == old(numEntries)
        invariant Levels() == Towered(before, Entry(k, v), i)
        decreases |rest|
      {
        p, q, qj := GrowTower(p, q, k, v, i, qj);
        i, rest := i + 1, rest[1..];
      }
      assert LeadingTrues(rest) == 0;
    }

    /**
     * Adds k with value v unless k is already a key (or is MIN_VALUE, the head's key).
     * The new entry's tower grows one level for each leading true coin flip, a new
     * top level being added whenever the tower reaches the top.
     */
    method Insert(k: Int32, v: int, flips: seq<bool>) returns (r: Outcome<bool>)
      requires Valid()
      modifies this
      ensures Valid()
      ensures r.NullPointer? <==> k == MaxValue
      ensures r == Ok(false) <==> k != MaxValue && (k == MinValue || Lookup(old(Entries()), k).Some?)
      ensures r != Ok(true) ==> unchanged(this)
      ensures r == Ok(true) ==> Entries() == InsertSorted(old(Entries()), Entry(k, v))
      ensures r == Ok(true) ==> numEntries == old(numEntries) + 1
      ensures r == Ok(true) ==> height == Max(old(height), LeadingTrues(flips))
      ensures r == Ok(true) ==> Levels() == Towered(old(Levels()), Entry(k, v), LeadingTrues(flips))
    {
      var found, j := Find(k);
      if found.NullPointer? {
        return NullPointer;
      }
      var p := found.value;
      LevelLookup(nodes, lvl, levels, NoGap, 0, j, k);
      KeyBounds(nodes, lvl, levels, NoGap, 0, j);
      assert NodeOk(nodes, lvl, levels, NoGap, 0, j);
      // A present key (or MIN_VALUE, the head's key) is refused
      if nodes.key[p] == k {
        return Ok(false);
      }
      BottomSplice(nodes, lvl, levels, j, k);
      AddEntry(p, k, v, flips, j);
      r := Ok(true);
    }

    /**
     * Puts a node of the new key k right after p, at position j of the bottom level,
     * and grows its tower; k lies strictly between p's key and its right neighbour's.
     */
    method AddEntry(p: int, k: Int32, v: int, flips: seq<bool>, ghost j: int)
      requires Valid() && SpliceFacts(nodes, lvl, levels, 0, j, k, Nil) && p == levels[0][j]
      modifies this
      ensures Valid()
      ensures Entries() == InsertSorted(old(Entries()), Entry(k, v))
      ensures numEntries == old(numEntries) + 1
      ensures height == Max(old(height), LeadingTrues(flips))
      ensures Levels() == Towered(old(Levels()), Entry(k, v), LeadingTrues(flips))
    {
      ghost var before := Levels();
      var q := SpliceAfter(p, k, v, Nil, 0, j);
      BuildTower(p, q, k, v, flips, j + 1, before);
      ToweredBottom(before, Entry(k, v), LeadingTrues(flips));
      numEntries := numEntries + 1;
    }
  
    /**
     * Halfway through unlinking the column of key k: levels below l have lost k, and
     * p, at position pj of level l, is the column's next node, or null once the
     * column is gone. `before` is what the levels held before.
     */
    ghost predicate Unlinking(p: int, k: int, l: int, pj: int, before: seq<seq<Entry>>)
      reads this`nodes, this`lvl, this`levels, this`head, this`tail, this`height
    {
      && 0 <= l <= |levels| && |levels| == |before|
      && GapListWf(nodes, lvl, levels, Gap(l, k), head, tail, height)
      && LevelViews(nodes, levels) == Unlinked(before, k, l)
      && (l > 0 ==> KeyAbsent(nodes, levels[l - 1], k))
      && (p != Nil ==> l < |levels| && 0 < pj < |levels[l]| - 1 && p == levels[l][pj])
      && (p != Nil ==> 0 <= p < nodes.Size() && nodes.key[p] == k)
      && (p == Nil ==> forall m :: l <= m < |levels| ==> KeyAbsent(nodes, levels[m], k))
    }

    /**
     * Unlinks p, the node of key k at position pj of level l, from its left and right
     * neighbours, and returns the node above it in k's column (null at the column's top).
     */
    method UnlinkNode(p: int, k: Int32, ghost l: int, ghost pj: int, ghost before: seq<seq<Entry>>)
      returns (u: int, ghost uj: int)
      requires Unlinking(p, k, l, pj, before) && p != Nil
      modifies this
      ensures GapListWf(nodes, lvl, levels, Gap(l + 1, k), head, tail, height)
      ensures old(nodes).Ok() && 0 <= old(nodes.left[p]) < old(nodes.Size()) && 0 <= old(nodes.right[p]) < old(nodes.Size())
      ensures nodes == Unhook(old(nodes), p)
      ensures lvl == old(lvl)[p := -1] && levels == old(levels)[l := RemoveAt(old(levels)[l], pj)]
      ensures head == old(head) && tail == old(tail) && height == old(height) && numEntries == old(numEntries)
      ensures Levels() == old(Levels())[l := Delete(old(Levels())[l], k)]
      ensures KeyAbsent(nodes, levels[l], k)
      ensures u == Nil ==> forall m :: l < m < |levels| ==> KeyAbsent(nodes, levels[m], k)
      ensures u != Nil ==> l + 1 < |levels| && 0 < uj < |levels[l + 1]| - 1 && u == levels[l + 1][uj]
      ensures u != Nil ==> 0 <= u < nodes.Size() && nodes.key[u] == k
      ensures Unlinking(u, k, l + 1, uj, before)
    {
      ghost var a := nodes;
      uj := UnlinkStep(nodes, lvl, levels, head, tail, height, l, pj, k);
      var b := nodes;
      b := b.(right := b.right[b.left[p] := b.right[p]]);
      b := b.(left := b.left[b.right[p] := b.left[p]]);
      assert b == Unhook(a, p);
      nodes, lvl, levels := b, lvl[p := -1], levels[l := RemoveAt(levels[l], pj)];
      u := nodes.up[p];
    }

    /**
     * Removes k's column, level by level from the bottom, and returns k's value, or
     * none when k is not a key. MIN_VALUE finds the head sentinel, whose null left
     * link the unlinking dereferences; MAX_VALUE fails in Find.
     */
    method Remove(k: Int32) returns (r: Outcome<Option<int>>)
      requires Valid()
      modifies this
      ensures Valid()
      ensures r.NullPointer? <==> k == MinValue || k == MaxValue
      ensures r.NullPointer? || r == Ok(None) ==> unchanged(this)
      ensures r.Ok? ==> r.value == Lookup(old(Entries()), k)
      ensures r.Ok? ==> Entries() == Delete(old(Entries()), k)
      ensures r.Ok? ==> |Levels()| == |old(Levels())|
      ensures r.Ok? ==> forall m :: 0 <= m < |Levels()| ==> Levels()[m] == Delete(old(Levels())[m], k)
      ensures head == old(head) && tail == old(tail) && height == old(height) && numEntries == old(numEntries)
    {
      var found, j := Find(k);
      if found.NullPointer? {
        return NullPointer;
      }
      var p := found.value;
      LevelLookup(nodes, lvl, levels, NoGap, 0, j, k);
      KeyBounds(nodes, lvl, levels, NoGap, 0, j);
      assert NodeOk(nodes, lvl, levels, NoGap, 0, j);
      // Find stopped on a smaller key: k is absent
      if nodes.key[p] != k {
        LevelBetween(nodes, lvl, levels, NoGap, 0, j, k);
        AbsentLevels(nodes, lvl, levels, k);
        return Ok(None);
      }
      if j > 0 {
        assert NodeOk(nodes, lvl, levels, NoGap, 0, j - 1);
      }
      if nodes.left[p] == Nil {
        // p is the head sentinel: p.left.right throws
        return NullPointer;
      }
      // Unlink k's node on every level of its tower
      var returnValue := nodes.value[p];
      UnlinkColumn(p, k, j);
      r := Ok(returnValue);
    }

    /**
     * Unlinks the column of key k, from p at position pj of the bottom level up to
     * the top of its tower, level by level.
     */
    method UnlinkColumn(p: int, k: Int32, ghost pj: int)
      requires Valid() && 0 < pj < |levels[0]| - 1 && p == levels[0][pj]
      requires 0 <= p < nodes.Size() && nodes.key[p] == k
      modifies this
      ensures Valid() && |Levels()| == |old(Levels())|
      ensures forall m :: 0 <= m < |Levels()| ==> Levels()[m] == Delete(old(Levels())[m], k)
      ensures head == old(head) && tail == old(tail) && height == old(height) && numEntries == old(numEntries)
    {
      ghost var before := Levels();
      var p := p;
      ghost var l, pj := 0, pj;
      GapAtBottom(nodes, lvl, levels, k);
      while p != Nil
        invariant Unlinking(p, k, l, pj, before)
        invariant head == old(head) && tail == old(tail) && height == old(height) && numEntries == old(numEntries)
        decreases |levels| - l
      {
        p, pj := UnlinkNode(p, k, l, pj, before);
        l := l + 1;
      }
      GapClosed(nodes, lvl, levels, Gap(l, k));
      AbsentFrom(nodes, lvl, levels, l, k);
      UnlinkedAll(before, k, l);
    }

    /** The smallest key, found right of the bottom head; MAX_VALUE (the tail's key) when the list is empty. */
    method GetMinKey() returns (k: Int32)
      requires Valid()
      ensures k == if Entries() == [] then MaxValue else Entries()[0].key
      ensures Entries() != [] ==> MinValue < k < MaxValue
    {
      var p := head;
      ghost var l := height;
      HeadDown(nodes, lvl, levels, l);
      while nodes.down[p] != Nil
        invariant 0 <= l < |levels| && p == levels[l][0] && 0 <= p < nodes.Size()
        invariant nodes.down[p] == if l > 0 then levels[l - 1][0] else Nil
        invariant l > 0 ==> 0 <= levels[l - 1][0] < nodes.Size()
        decreases l
      {
        p := nodes.down[p];
        l := l - 1;
        HeadDown(nodes, lvl, levels, l);
      }
      assert l == 0;
      assert NodeOk(nodes, lvl, levels, NoGap, 0, 0);
      assert NodeOk(nodes, lvl, levels, NoGap, 0, 1);
      KeyBounds(nodes, lvl, levels, NoGap, 0, 1);
      assert |Entries()| == |levels[0]| - 2;
      assert Entries() != [] ==> Entries()[0] == EntryOf(nodes, levels[0][1]);
      k := nodes.key[nodes.right[p]];
    }

    /** Removes the entry of the smallest key; on an empty list, remove(MAX_VALUE) fails in Find. */
    method DeleteMin() returns (r: Outcome<Option<int>>)
      requires Valid()
      modifies this
      ensures Valid()
      ensures r.NullPointer? <==> old(Entries()) == []
      ensures r.NullPointer? ==> unchanged(this)
      ensures r.Ok? ==> r.value == Some(old(Entries())[0].value) && Entries() == old(Entries())[1..]
      ensures r.Ok? ==> |Levels()| == |old(Levels())|
      ensures r.Ok? ==> forall m :: 0 <= m < |Levels()| ==> Levels()[m] == Delete(old(Levels())[m], old(Entries())[0].key)
      ensures head == old(head) && tail == old(tail) && height == old(height) && numEntries == old(numEntries)
    {
      var k := GetMinKey();
      ghost var es := Entries();
      if es != [] {
        LookupAt(es, 0);
        DeleteAt(es, 0);
      }
      r := Remove(k);
    }
  }
}
