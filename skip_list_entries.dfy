/**
 * The abstract view of a skip list level: its entries, in key order. The lemmas
 * here are about this view alone; the linked structure is related to it elsewhere.
 */
module SkipListEntries {
  import opened Wrappers

  /** A key with the value stored under it. */
  datatype Entry = Entry(key: int, value: int)

  /** Keys strictly increase from left to right. */
  ghost predicate Increasing(es: seq<Entry>)
  {
    forall i, j :: 0 <= i < j < |es| ==> es[i].key < es[j].key
  }

  /** The value stored under k, if any. */
  function Lookup(es: seq<Entry>, k: int): (r: Option<int>)
    ensures r.Some? ==> exists i :: 0 <= i < |es| && es[i] == Entry(k, r.value)
    ensures r.None? ==> forall i :: 0 <= i < |es| ==> es[i].key != k
  {
    if |es| == 0 then None
    else if es[0].key == k then Some(es[0].value)
    else
      var r := Lookup(es[1..], k);
      assert r.Some? ==> es[1..][0] == es[1];
      assert forall i :: 1 <= i < |es| ==> es[i] == es[1..][i - 1];
      r
  }

  /** The entries with e put in key order (e placed before any entry with an equal key). */
  function InsertSorted(es: seq<Entry>, e: Entry): (r: seq<Entry>)
    ensures |r| == |es| + 1
    ensures forall x :: x in r <==> x in es || x == e
  {
    if |es| == 0 || e.key <= es[0].key then [e] + es
    else [es[0]] + InsertSorted(es[1..], e)
  }

  /** The entries without those whose key is k. */
  function Delete(es: seq<Entry>, k: int): (r: seq<Entry>)
    ensures |r| <= |es|
    ensures forall i :: 0 <= i < |r| ==> r[i].key != k
  {
    if |es| == 0 then []
    else if es[0].key == k then Delete(es[1..], k)
    else [es[0]] + Delete(es[1..], k)
  }

  /** Delete keeps exactly the entries whose key is not k. */
  lemma {:induction false} DeleteMembers(es: seq<Entry>, k: int)
    ensures forall x :: x in Delete(es, k) <==> x in es && x.key != k
    decreases |es|
  {
    if |es| > 0 {
      DeleteMembers(es[1..], k);
      assert es == [es[0]] + es[1..];
    }
  }

  /** Inserting e after exactly the entries with smaller keys is what InsertSorted does. */
  lemma {:induction false} InsertSortedAt(es: seq<Entry>, i: int, e: Entry)
    requires 0 <= i <= |es|
    requires forall m :: 0 <= m < i ==> es[m].key < e.key
    requires i == |es| || e.key <= es[i].key
    ensures InsertSorted(es, e) == es[..i] + [e] + es[i..]
    decreases i
  {
    if i > 0 {
      assert es[0].key < e.key;
      assert forall m :: 0 <= m < i - 1 ==> es[1..][m] == es[m + 1];
      assert es[1..][i - 1..] == es[i..];
      InsertSortedAt(es[1..], i - 1, e);
      assert es[1..][..i - 1] == es[1..i];
      assert es[..i] == [es[0]] + es[1..i];
    }
  }

  /** Removing the entry at a position where k sits is what Delete does. */
  lemma {:induction false} DeleteAt(es: seq<Entry>, i: int)
    requires Increasing(es) && 0 <= i < |es|
    ensures Delete(es, es[i].key) == es[..i] + es[i + 1..]
    decreases i
  {
    var k := es[i].key;
    if i == 0 {
      DeleteAbsent(es[1..], k);
    } else {
      DeleteAt(es[1..], i - 1);
      assert es[1..][i - 1] == es[i];
      assert es[1..][..i - 1] == es[1..i];
      assert es[1..][i..] == es[i + 1..];
      assert es[..i] == [es[0]] + es[1..i];
    }
  }

  /** Deleting an absent key changes nothing. */
  lemma {:induction false} DeleteAbsent(es: seq<Entry>, k: int)
    requires forall i :: 0 <= i < |es| ==> es[i].key != k
    ensures Delete(es, k) == es
    decreases |es|
  {
    if |es| > 0 {
      assert forall i :: 0 <= i < |es| - 1 ==> es[1..][i] == es[i + 1];
      DeleteAbsent(es[1..], k);
      assert es == [es[0]] + es[1..];
    }
  }

  /** A suffix of an increasing sequence is increasing, and its keys exceed the first. */
  lemma IncreasingTail(es: seq<Entry>)
    requires Increasing(es) && |es| > 0
    ensures Increasing(es[1..])
    ensures forall x :: x in es[1..] ==> es[0].key < x.key
  {
    forall i, j | 0 <= i < j < |es| - 1
      ensures es[1..][i].key < es[1..][j].key
    {
      assert es[1..][i] == es[i + 1] && es[1..][j] == es[j + 1];
    }
    forall x | x in es[1..]
      ensures es[0].key < x.key
    {
      var m :| 0 <= m < |es| - 1 && es[1..][m] == x;
      assert es[m + 1] == x;
    }
  }

  /** Putting a smaller key in front of increasing entries keeps them increasing. */
  lemma IncreasingCons(x: Entry, es: seq<Entry>)
    requires Increasing(es)
    requires forall y :: y in es ==> x.key < y.key
    ensures Increasing([x] + es)
  {
    forall i, j | 0 <= i < j < |es| + 1
      ensures ([x] + es)[i].key < ([x] + es)[j].key
    {
      assert ([x] + es)[j] == es[j - 1];
      if i > 0 {
        assert ([x] + es)[i] == es[i - 1];
      } else {
        assert es[j - 1] in es;
      }
    }
  }

  /** InsertSorted keeps the keys increasing when the new key is absent. */
  lemma {:induction false} InsertSortedIncreasing(es: seq<Entry>, e: Entry)
    requires Increasing(es) && Lookup(es, e.key) == None
    ensures Increasing(InsertSorted(es, e))
    decreases |es|
  {
    if |es| == 0 {
    } else if e.key <= es[0].key {
      assert es[0].key != e.key;
      IncreasingTail(es);
      IncreasingCons(e, es);
    } else {
      IncreasingTail(es);
      InsertSortedIncreasing(es[1..], e);
      IncreasingCons(es[0], InsertSorted(es[1..], e));
    }
  }

  /** Delete keeps the keys increasing. */
  lemma {:induction false} DeleteIncreasing(es: seq<Entry>, k: int)
    requires Increasing(es)
    ensures Increasing(Delete(es, k))
    ensures forall x :: x in Delete(es, k) ==> x in es
    decreases |es|
  {
    if |es| > 0 {
      IncreasingTail(es);
      DeleteIncreasing(es[1..], k);
      if es[0].key != k {
        IncreasingCons(es[0], Delete(es[1..], k));
      }
    }
  }

  /** After inserting e, e's key maps to e's value and every other key keeps its value. */
  lemma {:induction false} LookupInsertSorted(es: seq<Entry>, e: Entry, k: int)
    ensures Lookup(InsertSorted(es, e), k) == if k == e.key then Some(e.value) else Lookup(es, k)
    decreases |es|
  {
    if |es| > 0 && e.key > es[0].key {
      LookupInsertSorted(es[1..], e, k);
    }
  }

  /** After deleting k, k maps to nothing and every other key keeps its value. */
  lemma {:induction false} LookupDelete(es: seq<Entry>, k: int, k': int)
    ensures Lookup(Delete(es, k), k') == if k' == k then None else Lookup(es, k')
    decreases |es|
  {
    if |es| > 0 {
      LookupDelete(es[1..], k, k');
    }
  }

  /** Deleting a key that was just inserted restores the entries. */
  lemma {:induction false} DeleteInsertSorted(es: seq<Entry>, e: Entry)
    requires Lookup(es, e.key) == None
    ensures Delete(InsertSorted(es, e), e.key) == es
    decreases |es|
  {
    if |es| == 0 || e.key <= es[0].key {
      DeleteAbsent(es, e.key);
    } else {
      DeleteInsertSorted(es[1..], e);
    }
  }

  /** In increasing entries the value found under k is the one at the position of k. */
  lemma LookupAt(es: seq<Entry>, i: int)
    requires Increasing(es) && 0 <= i < |es|
    ensures Lookup(es, es[i].key) == Some(es[i].value)
  {
    var r := Lookup(es, es[i].key);
    if r.Some? {
      var m :| 0 <= m < |es| && es[m] == Entry(es[i].key, r.value);
      assert m == i;
    }
  }
}
