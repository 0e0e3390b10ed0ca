/** Sequence facts shared by the navigation model: duplicate-freedom, stable sorting by a key, removal. */
module Sequences {

  /** No element occurs twice. */
  ghost predicate NoDup<T(!new)>(s: seq<T>)
  {
    forall x :: multiset(s)[x] <= 1
  }

  lemma NoDupAppend<T(!new)>(a: seq<T>, b: seq<T>)
    ensures NoDup(a + b) <==> NoDup(a) && NoDup(b) && (forall x :: x in a ==> x !in b)
  {
    assert multiset(a + b) == multiset(a) + multiset(b);
    if NoDup(a + b) {
      forall x ensures multiset(a)[x] <= 1 && multiset(b)[x] <= 1 {
        assert multiset(a + b)[x] == multiset(a)[x] + multiset(b)[x];
      }
      forall x | x in a ensures x !in b {
        assert multiset(a + b)[x] == multiset(a)[x] + multiset(b)[x];
      }
    }
    if NoDup(a) && NoDup(b) && (forall x :: x in a ==> x !in b) {
      forall x ensures multiset(a + b)[x] <= 1 {
        assert multiset(a + b)[x] == multiset(a)[x] + multiset(b)[x];
        if x in a { assert x !in b; }
      }
    }
  }

  ghost predicate SortedBy<T>(s: seq<T>, key: T -> int)
  {
    forall i, j :: 0 <= i < j < |s| ==> key(s[i]) <= key(s[j])
  }

  /** Sortedness follows from the order of neighbours. */
  lemma {:induction false} SortedByAdjacent<T>(s: seq<T>, key: T -> int)
    requires forall i :: 0 < i < |s| ==> key(s[i - 1]) <= key(s[i])
    ensures SortedBy(s, key)
  {
    if |s| > 1 {
      SortedByAdjacent(s[1..], key);
      forall j | 0 < j < |s| ensures key(s[0]) <= key(s[j]) {
        assert s[1..][j - 1] == s[j];
        if j > 1 {
          assert key(s[1..][0]) <= key(s[1..][j - 1]);
        }
      }
    }
  }

  /** The keys along `s` strictly increase from each element to the next. */
  predicate KeysIncrease<T>(s: seq<T>, key: T -> int)
  {
    |s| < 2 || (key(s[0]) < key(s[1]) && KeysIncrease(s[1..], key))
  }

  lemma {:induction false} KeysIncreaseAdjacent<T>(s: seq<T>, key: T -> int)
    requires KeysIncrease(s, key)
    ensures forall i :: 0 < i < |s| ==> key(s[i - 1]) < key(s[i])
  {
    if |s| >= 2 {
      KeysIncreaseAdjacent(s[1..], key);
      forall i | 1 < i < |s| ensures key(s[i - 1]) < key(s[i]) {
        assert s[1..][i - 2] == s[i - 1] && s[1..][i - 1] == s[i];
      }
    }
  }

  /** Strictly increasing neighbours give strictly increasing keys overall, so no key repeats. */
  lemma {:induction false} StrictlyIncreasingKeysAreDistinct<T>(s: seq<T>, key: T -> int)
    requires forall i :: 0 < i < |s| ==> key(s[i - 1]) < key(s[i])
    ensures forall i, j :: 0 <= i < j < |s| ==> key(s[i]) < key(s[j])
    ensures forall x, y :: x in s && y in s && key(x) == key(y) ==> x == y
  {
    if |s| > 1 {
      StrictlyIncreasingKeysAreDistinct(s[1..], key);
      forall i, j | 0 <= i < j < |s| ensures key(s[i]) < key(s[j]) {
        assert s[1..][j - 1] == s[j];
        if i > 0 {
          assert s[1..][i - 1] == s[i];
        } else if j > 1 {
          assert key(s[1..][0]) < key(s[1..][j - 1]);
        }
      }
    }
    forall x, y | x in s && y in s && key(x) == key(y) ensures x == y {
      var i :| 0 <= i < |s| && s[i] == x;
      var j :| 0 <= j < |s| && s[j] == y;
      assert !(i < j) && !(j < i);
    }
  }

  /** Inserts `x` after every element whose key is not greater, so equal keys keep their order. */
  function InsertBy<T>(x: T, s: seq<T>, key: T -> int): (r: seq<T>)
    ensures multiset(r) == multiset(s) + multiset{x}
    ensures |r| == |s| + 1
  {
    if s == [] then [x]
    else if key(x) < key(s[0]) then [x] + s
    else
      assert s == [s[0]] + s[1..];
      [s[0]] + InsertBy(x, s[1..], key)
  }

  /** A sorted sequence stays sorted behind a head whose key is no greater than any of its elements. */
  lemma SortedCons<T>(h: T, tail: seq<T>, key: T -> int)
    requires SortedBy(tail, key)
    requires forall y :: y in tail ==> key(h) <= key(y)
    ensures SortedBy([h] + tail, key)
  {
    var r := [h] + tail;
    forall i, j | 0 <= i < j < |r| ensures key(r[i]) <= key(r[j]) {
      assert r[j] == tail[j - 1];
      if i > 0 {
        assert r[i] == tail[i - 1];
      } else {
        assert tail[j - 1] in tail;
      }
    }
  }

  lemma {:induction false} InsertByKeepsSorted<T>(x: T, s: seq<T>, key: T -> int)
    requires SortedBy(s, key)
    ensures SortedBy(InsertBy(x, s, key), key)
  {
    if s == [] {
    } else if key(x) < key(s[0]) {
      forall y | y in s ensures key(x) <= key(y) {
        var k :| 0 <= k < |s| && s[k] == y;
        if k > 0 { assert key(s[0]) <= key(s[k]); }
      }
      SortedCons(x, s, key);
    } else {
      var tail := InsertBy(x, s[1..], key);
      InsertByKeepsSorted(x, s[1..], key);
      forall y | y in tail ensures key(s[0]) <= key(y) {
        assert multiset(tail)[y] > 0;
        if y != x {
          assert y in multiset(s[1..]);
          var k :| 0 <= k < |s[1..]| && s[1..][k] == y;
          assert s[k + 1] == y;
        }
      }
      SortedCons(s[0], tail, key);
    }
  }

  /** Stable insertion sort by `key` (the model of LINQ's `OrderBy`). */
  function SortBy<T>(s: seq<T>, key: T -> int): (r: seq<T>)
    ensures multiset(r) == multiset(s) && |r| == |s|
    ensures SortedBy(r, key)
  {
    if s == [] then []
    else
      var init := SortBy(s[..|s| - 1], key);
      assert s == s[..|s| - 1] + [s[|s| - 1]];
      InsertByKeepsSorted(s[|s| - 1], init, key);
      InsertBy(s[|s| - 1], init, key)
  }

  /** The elements of `s` whose key is `k`, in their order in `s`. */
  function WithKey<T>(s: seq<T>, key: T -> int, k: int): seq<T>
  {
    if s == [] then []
    else (if key(s[0]) == k then [s[0]] else []) + WithKey(s[1..], key, k)
  }

  lemma {:induction false} WithKeyAppend<T>(a: seq<T>, b: seq<T>, key: T -> int, k: int)
    ensures WithKey(a + b, key, k) == WithKey(a, key, k) + WithKey(b, key, k)
  {
    if a == [] {
      assert a + b == b;
    } else {
      assert (a + b)[1..] == a[1..] + b;
      WithKeyAppend(a[1..], b, key, k);
    }
  }

  /** No element of `s` has key `k` when all of its keys are greater. */
  lemma {:induction false} WithKeyAbove<T>(s: seq<T>, key: T -> int, k: int)
    requires forall y :: y in s ==> k < key(y)
    ensures WithKey(s, key, k) == []
  {
    if s != [] {
      assert forall y :: y in s[1..] ==> y in s;
      WithKeyAbove(s[1..], key, k);
    }
  }

  /** Inserting into a sorted sequence puts the new element behind every element with its key. */
  lemma {:induction false} InsertByKeepsEqualKeysInOrder<T>(x: T, s: seq<T>, key: T -> int, k: int)
    requires SortedBy(s, key)
    ensures WithKey(InsertBy(x, s, key), key, k) == WithKey(s, key, k) + WithKey([x], key, k)
  {
    if s == [] {
    } else if key(x) < key(s[0]) {
      WithKeyAppend([x], s, key, k);
      if key(x) == k {
        forall y | y in s ensures k < key(y) {
          var j :| 0 <= j < |s| && s[j] == y;
          assert key(s[0]) <= key(s[j]);
        }
        WithKeyAbove(s, key, k);
      }
    } else {
      SortedTail(s, key);
      InsertByKeepsEqualKeysInOrder(x, s[1..], key, k);
      WithKeyAppend([s[0]], InsertBy(x, s[1..], key), key, k);
      assert s == [s[0]] + s[1..];
      WithKeyAppend([s[0]], s[1..], key, k);
    }
  }

  /** The sort is stable: for every key, the elements with that key keep their relative order. */
  lemma {:induction false} SortByIsStable<T>(s: seq<T>, key: T -> int, k: int)
    ensures WithKey(SortBy(s, key), key, k) == WithKey(s, key, k)
  {
    if s != [] {
      var init, last := s[..|s| - 1], s[|s| - 1];
      SortByIsStable(init, key, k);
      InsertByKeepsEqualKeysInOrder(last, SortBy(init, key), key, k);
      assert s == init + [last];
      WithKeyAppend(init, [last], key, k);
    }
  }

  /** Sorting does not change which elements occur. */
  lemma SortByMembers<T>(s: seq<T>, key: T -> int, x: T)
    ensures x in SortBy(s, key) <==> x in s
  {
    assert x in SortBy(s, key) <==> multiset(SortBy(s, key))[x] > 0;
  }

  /** Two arrangements of one multiset that start alike continue with arrangements of one multiset. */
  lemma SameHeadSameTail<T>(a: seq<T>, b: seq<T>)
    requires multiset(a) == multiset(b) && a != [] && b != [] && a[0] == b[0]
    ensures multiset(a[1..]) == multiset(b[1..])
  {
    assert a == [a[0]] + a[1..] && b == [b[0]] + b[1..];
    assert multiset(a) == multiset{a[0]} + multiset(a[1..]);
    assert multiset(b) == multiset{a[0]} + multiset(b[1..]);
    forall x ensures multiset(a[1..])[x] == multiset(b[1..])[x] {
      assert multiset(a)[x] == multiset(b)[x];
    }
  }

  /** Two sorted arrangements of one multiset with distinct keys start with the same element. */
  lemma SortedHeadsAgree<T>(a: seq<T>, b: seq<T>, key: T -> int)
    requires multiset(a) == multiset(b) && a != [] && b != []
    requires SortedBy(a, key) && SortedBy(b, key)
    requires forall x, y :: x in a && y in a && key(x) == key(y) ==> x == y
    ensures a[0] == b[0]
  {
    assert a[0] in multiset(b) && b[0] in multiset(a);
    var i :| 0 <= i < |b| && b[i] == a[0];
    var j :| 0 <= j < |a| && a[j] == b[0];
    assert key(a[0]) <= key(a[j]) && key(b[0]) <= key(b[i]);
  }

  lemma SortedTail<T>(s: seq<T>, key: T -> int)
    requires SortedBy(s, key) && s != []
    ensures SortedBy(s[1..], key)
  {
    forall i, j | 0 <= i < j < |s| - 1 ensures key(s[1..][i]) <= key(s[1..][j]) {
      assert s[1..][i] == s[i + 1] && s[1..][j] == s[j + 1];
    }
  }

  /** Elements with pairwise distinct keys have only one sorted arrangement. */
  lemma {:induction false} SortedArrangementIsUnique<T>(a: seq<T>, b: seq<T>, key: T -> int)
    requires multiset(a) == multiset(b)
    requires SortedBy(a, key) && SortedBy(b, key)
    requires forall x, y :: x in a && y in a && key(x) == key(y) ==> x == y
    ensures a == b
  {
    assert |b| == |multiset(b)| == |multiset(a)| == |a|;
    if a != [] {
      SortedHeadsAgree(a, b, key);
      SameHeadSameTail(a, b);
      var a', b' := a[1..], b[1..];
      forall x, y | x in a' && y in a' && key(x) == key(y) ensures x == y {
        assert x in a && y in a;
      }
      SortedTail(a, key);
      SortedTail(b, key);
      SortedArrangementIsUnique(a', b', key);
      assert a == [a[0]] + a' && b == [b[0]] + b';
    }
  }

  /** A sequence whose keys strictly increase is the only sorted arrangement of its elements. */
  lemma OnlySortedArrangement<T>(a: seq<T>, b: seq<T>, key: T -> int)
    requires multiset(a) == multiset(b) && SortedBy(a, key)
    requires KeysIncrease(b, key)
    ensures a == b
  {
    KeysIncreaseAdjacent(b, key);
    StrictlyIncreasingKeysAreDistinct(b, key);
    SortedByAdjacent(b, key);
    forall x, y | x in a && y in a && key(x) == key(y) ensures x == y {
      assert x in multiset(b) && y in multiset(b);
    }
    SortedArrangementIsUnique(a, b, key);
  }

  /** Every occurrence of `x` removed (LINQ `Where(y => y != x)`). */
  function Without<T(==,!new)>(s: seq<T>, x: T): (r: seq<T>)
    ensures forall y :: multiset(r)[y] == if y == x then 0 else multiset(s)[y]
  {
    if s == [] then []
    else
      assert s == [s[0]] + s[1..];
      (if s[0] == x then [] else [s[0]]) + Without(s[1..], x)
  }

  /** Pairwise distinct positions hold distinct elements, so nothing occurs twice. */
  lemma {:induction false} DistinctNoDup<T(!new)>(s: seq<T>)
    requires forall i, j :: 0 <= i < j < |s| ==> s[i] != s[j]
    ensures NoDup(s)
  {
    if s != [] {
      DistinctNoDup(s[1..]);
      assert s == [s[0]] + s[1..];
      NoDupAppend([s[0]], s[1..]);
    }
  }

  /** A duplicate-free sequence holding exactly the elements of `e` lists `e`, each once. */
  lemma NoDupListing<T(!new)>(s: seq<T>, e: set<T>)
    requires NoDup(s)
    requires forall x :: x in s <==> x in e
    ensures multiset(s) == multiset(e) && |s| == |e|
  {
    forall x ensures multiset(s)[x] == multiset(e)[x] {
      assert x in s <==> x in multiset(s);
    }
    assert multiset(s) == multiset(e);
    assert |multiset(e)| == |e|;
  }

  /** A duplicate-free sorted listing of the elements of a strictly increasing one is that one. */
  lemma IncreasingListingIsUnique<T(!new)>(a: seq<T>, b: seq<T>, key: T -> int)
    requires NoDup(a) && SortedBy(a, key)
    requires KeysIncrease(b, key)
    requires forall x :: x in a <==> x in b
    ensures a == b
  {
    KeysIncreaseAdjacent(b, key);
    StrictlyIncreasingKeysAreDistinct(b, key);
    DistinctNoDup(b);
    var e := set x | x in b;
    NoDupListing(a, e);
    NoDupListing(b, e);
    OnlySortedArrangement(a, b, key);
  }
}
