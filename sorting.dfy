/**
 * Python's `sorted(items, key=key)` for integer keys: a stable sort.  Items travel with
 * their keys as `Keyed` pairs, so the sort itself is a pure function of a sequence.
 * `SortByKey` is an insertion sort; what it promises is that the keys come out in
 * nondecreasing order, that the entries are a permutation of the input, and that
 * entries with equal keys keep their input order (`WithKey` is the same before and
 * after for every key).
 */
module Sorting {

  datatype Keyed<T> = Keyed(key: int, item: T)

  predicate KeysSorted<T>(s: seq<Keyed<T>>)
  {
    forall i, j :: 0 <= i < j < |s| ==> s[i].key <= s[j].key
  }

  /** The items, with their keys dropped. */
  function Items<T>(s: seq<Keyed<T>>): (r: seq<T>)
    ensures |r| == |s| && forall i :: 0 <= i < |s| ==> r[i] == s[i].item
  {
    seq(|s|, i requires 0 <= i < |s| => s[i].item)
  }

  /** The entries of `s` whose key is `k`, in their order in `s`. */
  function WithKey<T>(s: seq<Keyed<T>>, k: int): seq<Keyed<T>>
  {
    if |s| == 0 then []
    else WithKey(s[..|s| - 1], k) + (if s[|s| - 1].key == k then [s[|s| - 1]] else [])
  }

  /** `e` placed after every entry of `s` whose key is at most its own. */
  function Insert<T>(s: seq<Keyed<T>>, e: Keyed<T>): (r: seq<Keyed<T>>)
    ensures |r| == |s| + 1
  {
    if |s| == 0 || s[|s| - 1].key <= e.key then s + [e]
    else Insert(s[..|s| - 1], e) + [s[|s| - 1]]
  }

  /** Insertion sort, taking the entries from the front: the keys come out in
      nondecreasing order and the entries are a permutation of the input. */
  function SortByKey<T>(s: seq<Keyed<T>>): (r: seq<Keyed<T>>)
    ensures |r| == |s| && KeysSorted(r) && multiset(r) == multiset(s)
  {
    if |s| == 0 then []
    else
      var init, last := s[..|s| - 1], s[|s| - 1];
      InsertSorted(SortByKey(init), last);
      InsertPermutes(SortByKey(init), last);
      assert s == init + [last];
      Insert(SortByKey(init), last)
  }

  // ------------------------------------------------------------------ insertion

  lemma {:induction false} InsertPermutes<T>(s: seq<Keyed<T>>, e: Keyed<T>)
    ensures multiset(Insert(s, e)) == multiset(s) + multiset{e}
  {
    if |s| == 0 || s[|s| - 1].key <= e.key {
    } else {
      var init := s[..|s| - 1];
      InsertPermutes(init, e);
      assert s == init + [s[|s| - 1]];
    }
  }

  lemma {:induction false} InsertSorted<T>(s: seq<Keyed<T>>, e: Keyed<T>)
    requires KeysSorted(s)
    ensures KeysSorted(Insert(s, e))
  {
    if |s| == 0 || s[|s| - 1].key <= e.key {
    } else {
      var init := s[..|s| - 1];
      var last := s[|s| - 1];
      var r := Insert(init, e);
      InsertSorted(init, e);
      InsertPermutes(init, e);
      forall i | 0 <= i < |r| ensures r[i].key <= last.key {
        assert r[i] in multiset(init) + multiset{e};
      }
    }
  }

  /** Inserting `e` into a sorted sequence adds it at the end of the entries with its
      key and leaves the other keys' entries alone. */
  lemma {:induction false} InsertWithKey<T>(s: seq<Keyed<T>>, e: Keyed<T>, k: int)
    requires KeysSorted(s)
    ensures WithKey(Insert(s, e), k) == WithKey(s, k) + (if e.key == k then [e] else [])
  {
    if |s| == 0 || s[|s| - 1].key <= e.key {
      assert (s + [e])[..|s|] == s;
    } else {
      var init := s[..|s| - 1];
      var last := s[|s| - 1];
      var r := Insert(init, e);
      InsertWithKey(init, e, k);
      assert (r + [last])[..|r|] == r;
    }
  }

  // ----------------------------------------------------------------------- sort

  /** `sorted` is stable: for every key, the entries with that key appear in the
      same order as in the input. */
  lemma {:induction false} SortStable<T>(s: seq<Keyed<T>>, k: int)
    ensures WithKey(SortByKey(s), k) == WithKey(s, k)
  {
    if |s| > 0 {
      var init := s[..|s| - 1];
      SortStable(init, k);
      InsertWithKey(SortByKey(init), s[|s| - 1], k);
    }
  }

  /** Dropping the keys commutes with concatenation. */
  lemma {:induction false} ItemsAppend<T>(a: seq<Keyed<T>>, b: seq<Keyed<T>>)
    ensures Items(a + b) == Items(a) + Items(b)
  {
  }

  /** Dropping the keys after `Insert` gives the items with `e`'s item added. */
  lemma {:induction false} InsertItems<T>(s: seq<Keyed<T>>, e: Keyed<T>)
    ensures multiset(Items(Insert(s, e))) == multiset(Items(s)) + multiset{e.item}
  {
    if |s| == 0 || s[|s| - 1].key <= e.key {
      ItemsAppend(s, [e]);
      assert Items([e]) == [e.item];
    } else {
      var init, last := s[..|s| - 1], s[|s| - 1];
      InsertItems(init, e);
      ItemsAppend(Insert(init, e), [last]);
      assert s == init + [last];
      ItemsAppend(init, [last]);
      assert Items([last]) == [last.item];
    }
  }

  /** The sorted items are a permutation of the input items. */
  lemma {:induction false} SortItems<T>(s: seq<Keyed<T>>)
    ensures multiset(Items(SortByKey(s))) == multiset(Items(s))
  {
    if |s| > 0 {
      var init, last := s[..|s| - 1], s[|s| - 1];
      var sorted := SortByKey(init);
      SortItems(init);
      InsertItems(sorted, last);
      assert SortByKey(s) == Insert(sorted, last);
      assert s == init + [last];
      ItemsAppend(init, [last]);
      assert Items([last]) == [last.item];
      assert multiset(Items(s)) == multiset(Items(init)) + multiset{last.item};
    }
  }

  /** An item occurs in the sorted result exactly when it occurs in the input. */
  lemma {:induction false} SortSameItems<T>(s: seq<Keyed<T>>, x: T)
    ensures x in Items(SortByKey(s)) <==> x in Items(s)
  {
    SortItems(s);
    assert x in Items(SortByKey(s)) <==> x in multiset(Items(SortByKey(s)));
    assert x in Items(s) <==> x in multiset(Items(s));
  }
}
