/**
 * The stable sort the registries rely on (Python's `sorted` and
 * `list.sort`, both stable), written as an insertion sort over a
 * sequence and an integer sort key.
 *
 * Stability is stated through key classes: for every key, the elements
 * carrying that key appear in the sorted result in the same relative
 * order as in the input. A sorted sequence is determined by its key
 * classes (SortedUnique), from which follow the two facts the depot needs:
 * sorting a sorted sequence changes nothing, and sorting in two rounds
 * (an already sorted prefix, then a new suffix) gives what one round on
 * everything gives.
 */
module StableSort {

  predicate Sorted<T>(s: seq<T>, key: T -> int) {
    forall i, j :: 0 <= i < j < |s| ==> key(s[i]) <= key(s[j])
  }

  /** Inserts `x` after every element whose key does not exceed its own. */
  function Insert<T>(x: T, s: seq<T>, key: T -> int): (r: seq<T>)
    ensures |r| == |s| + 1
  {
    if |s| == 0 || key(s[|s| - 1]) <= key(x) then
      s + [x]
    else
      Insert(x, s[..|s| - 1], key) + [s[|s| - 1]]
  }

  lemma {:induction false} InsertMultiset<T>(x: T, s: seq<T>, key: T -> int)
    ensures multiset(Insert(x, s, key)) == multiset(s) + multiset{x}
  {
    if |s| > 0 && key(x) < key(s[|s| - 1]) {
      InsertMultiset(x, s[..|s| - 1], key);
      assert s == s[..|s| - 1] + [s[|s| - 1]];
    }
  }

  lemma {:induction false} InsertSorted<T>(x: T, s: seq<T>, key: T -> int)
    requires Sorted(s, key)
    ensures Sorted(Insert(x, s, key), key)
  {
    if |s| > 0 && key(x) < key(s[|s| - 1]) {
      var init, last := s[..|s| - 1], s[|s| - 1];
      var r' := Insert(x, init, key);
      InsertSorted(x, init, key);
      InsertMultiset(x, init, key);
      forall i | 0 <= i < |r'| ensures key(r'[i]) <= key(last) {
        assert r'[i] in multiset(init) + multiset{x};
        if r'[i] != x {
          var j :| 0 <= j < |init| && init[j] == r'[i];
          assert s[j] == init[j];
        }
      }
    }
  }

  function Sort<T>(s: seq<T>, key: T -> int): (r: seq<T>)
    ensures Sorted(r, key)
    ensures multiset(r) == multiset(s)
    ensures |r| == |s|
  {
    if |s| == 0 then []
    else
      var r' := Sort(s[..|s| - 1], key);
      InsertSorted(s[|s| - 1], r', key);
      InsertMultiset(s[|s| - 1], r', key);
      assert s == s[..|s| - 1] + [s[|s| - 1]];
      Insert(s[|s| - 1], r', key)
  }

  /** The elements of `s` whose key is `k`, in their order in `s`. */
  function KeyClass<T>(s: seq<T>, key: T -> int, k: int): seq<T> {
    if |s| == 0 then []
    else KeyClass(s[..|s| - 1], key, k) + (if key(s[|s| - 1]) == k then [s[|s| - 1]] else [])
  }

  lemma {:induction false} KeyClassMembers<T>(s: seq<T>, key: T -> int, k: int)
    ensures forall i :: 0 <= i < |KeyClass(s, key, k)| ==>
      KeyClass(s, key, k)[i] in s && key(KeyClass(s, key, k)[i]) == k
  {
    if |s| > 0 {
      KeyClassMembers(s[..|s| - 1], key, k);
    }
  }

  lemma {:induction false} KeyClassAppend<T>(a: seq<T>, b: seq<T>, key: T -> int, k: int)
    ensures KeyClass(a + b, key, k) == KeyClass(a, key, k) + KeyClass(b, key, k)
  {
    if |b| == 0 {
      assert a + b == a;
    } else {
      assert (a + b)[..|a + b| - 1] == a + b[..|b| - 1];
      KeyClassAppend(a, b[..|b| - 1], key, k);
    }
  }

  lemma KeyClassSnoc<T>(s: seq<T>, y: T, key: T -> int, k: int)
    ensures KeyClass(s + [y], key, k) == KeyClass(s, key, k) + (if key(y) == k then [y] else [])
  {
    assert (s + [y])[..|s|] == s;
  }

  lemma {:induction false} KeyClassInsert<T>(x: T, s: seq<T>, key: T -> int, k: int)
    requires Sorted(s, key)
    ensures KeyClass(Insert(x, s, key), key, k)
         == KeyClass(s, key, k) + (if key(x) == k then [x] else [])
  {
    if |s| == 0 || key(s[|s| - 1]) <= key(x) {
      KeyClassSnoc(s, x, key, k);
    } else {
      var init, last := s[..|s| - 1], s[|s| - 1];
      assert s == init + [last];
      SortedPrefix(s, key);
      KeyClassInsert(x, init, key, k);
      KeyClassSnoc(Insert(x, init, key), last, key, k);
      KeyClassSnoc(init, last, key, k);
      var xs := if key(x) == k then [x] else [];
      var ls := if key(last) == k then [last] else [];
      assert xs == [] || ls == [];
      assert KeyClass(Insert(x, s, key), key, k) == KeyClass(init, key, k) + xs + ls;
      assert KeyClass(s, key, k) + xs == KeyClass(init, key, k) + ls + xs;
    }
  }

  lemma SortedPrefix<T>(s: seq<T>, key: T -> int)
    requires Sorted(s, key) && |s| > 0
    ensures Sorted(s[..|s| - 1], key)
  {
  }

  /** Sorting keeps each key class in input order: the sort is stable. */
  lemma {:induction false} SortStable<T>(s: seq<T>, key: T -> int, k: int)
    ensures KeyClass(Sort(s, key), key, k) == KeyClass(s, key, k)
  {
    if |s| > 0 {
      SortStable(s[..|s| - 1], key, k);
      KeyClassInsert(s[|s| - 1], Sort(s[..|s| - 1], key), key, k);
    }
  }

  /** Two sorted sequences with the same key classes are equal. */
  lemma {:induction false} SortedUnique<T>(a: seq<T>, b: seq<T>, key: T -> int)
    requires Sorted(a, key) && Sorted(b, key)
    requires forall k :: KeyClass(a, key, k) == KeyClass(b, key, k)
    ensures a == b
  {
    if |a| == 0 && |b| == 0 {
      return;
    }
    if |a| == 0 || |b| == 0 {
      var s := if |a| == 0 then b else a;
      LastKeyClass(s, key);
      return;
    }
    var a', x := a[..|a| - 1], a[|a| - 1];
    var b', y := b[..|b| - 1], b[|b| - 1];
    assert a == a' + [x] && b == b' + [y];
    SameLastKey(a', x, b', y, key);
    SameInit(a', x, b', y, key);
    SortedPrefix(a, key);
    SortedPrefix(b, key);
    SortedUnique(a', b', key);
  }

  /** With equal last keys, equal key classes come from equal last elements and equal key classes before them. */
  lemma SameInit<T>(a': seq<T>, x: T, b': seq<T>, y: T, key: T -> int)
    requires key(x) == key(y)
    requires forall k :: KeyClass(a' + [x], key, k) == KeyClass(b' + [y], key, k)
    ensures x == y
    ensures forall k :: KeyClass(a', key, k) == KeyClass(b', key, k)
  {
    forall k ensures KeyClass(a', key, k) == KeyClass(b', key, k) {
      SameInitAt(a', x, b', y, key, k);
    }
    KeyClassSnoc(a', x, key, key(x));
    KeyClassSnoc(b', y, key, key(x));
    var w := KeyClass(a' + [x], key, key(x));
    assert w[|w| - 1] == x && w[|w| - 1] == y;
  }

  lemma SameInitAt<T>(a': seq<T>, x: T, b': seq<T>, y: T, key: T -> int, k: int)
    requires key(x) == key(y)
    requires KeyClass(a' + [x], key, k) == KeyClass(b' + [y], key, k)
    ensures KeyClass(a', key, k) == KeyClass(b', key, k)
  {
    KeyClassSnoc(a', x, key, k);
    KeyClassSnoc(b', y, key, k);
    if k == key(x) {
      var w := KeyClass(a' + [x], key, k);
      assert w == KeyClass(a', key, k) + [x] && w == KeyClass(b', key, k) + [y];
      assert KeyClass(a', key, k) == w[..|w| - 1];
      assert KeyClass(b', key, k) == w[..|w| - 1];
    }
  }

  lemma LastKeyClass<T>(s: seq<T>, key: T -> int)
    requires |s| > 0
    ensures KeyClass(s, key, key(s[|s| - 1])) != []
  {
  }

  /** Sorted sequences with the same key classes end in the same key. */
  lemma SameLastKey<T>(a': seq<T>, x: T, b': seq<T>, y: T, key: T -> int)
    requires Sorted(a' + [x], key) && Sorted(b' + [y], key)
    requires forall k :: KeyClass(a' + [x], key, k) == KeyClass(b' + [y], key, k)
    ensures key(x) == key(y)
  {
    var a, b := a' + [x], b' + [y];
    KeyClassSnoc(a', x, key, key(x));
    KeyClassSnoc(b', y, key, key(y));
    KeyClassMembers(a, key, key(y));
    KeyClassMembers(b, key, key(x));
    var wb := KeyClass(b, key, key(x));
    assert wb == KeyClass(a, key, key(x)) && |wb| > 0;
    assert wb[0] in b;
    var wa := KeyClass(a, key, key(y));
    assert |wa| > 0 && wa[0] in a;
  }

  /** Re-sorting a sorted sequence leaves it unchanged. */
  lemma SortOfSorted<T>(s: seq<T>, key: T -> int)
    requires Sorted(s, key)
    ensures Sort(s, key) == s
  {
    forall k ensures KeyClass(Sort(s, key), key, k) == KeyClass(s, key, k) {
      SortStable(s, key, k);
    }
    SortedUnique(Sort(s, key), s, key);
  }

  /**
   * Sorting what was already sorted together with new elements gives the
   * same sequence as sorting everything in one go.
   */
  lemma SortMerge<T>(a: seq<T>, b: seq<T>, key: T -> int)
    ensures Sort(Sort(a, key) + b, key) == Sort(a + b, key)
  {
    forall k ensures KeyClass(Sort(Sort(a, key) + b, key), key, k) == KeyClass(Sort(a + b, key), key, k) {
      SortStable(Sort(a, key) + b, key, k);
      KeyClassAppend(Sort(a, key), b, key, k);
      SortStable(a, key, k);
      KeyClassAppend(a, b, key, k);
      SortStable(a + b, key, k);
    }
    SortedUnique(Sort(Sort(a, key) + b, key), Sort(a + b, key), key);
  }
}
