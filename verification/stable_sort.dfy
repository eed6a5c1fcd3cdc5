/** A stable sort by an integer key, standing for Python's `list.sort(key=…)`.
    Python's sort is stable: among elements with equal keys the input order
    survives. `Sort` below is an insertion sort; `StableSortIsUnique` shows
    that every sorted arrangement that keeps each key's elements in input
    order is this one, so Python's merge-based algorithm gives the same
    list. */
module StableSort {

  /** Keys never decrease from left to right. */
  predicate SortedBy<T>(s: seq<T>, key: T -> int) {
    forall i, j :: 0 <= i < j < |s| ==> key(s[i]) <= key(s[j])
  }

  /** The elements of `s` whose key is `k`, in the order they have in `s`. */
  function WithKey<T>(s: seq<T>, key: T -> int, k: int): seq<T> {
    if |s| == 0 then []
    else WithKey(s[..|s| - 1], key, k) + (if key(s[|s| - 1]) == k then [s[|s| - 1]] else [])
  }

  lemma {:induction false} WithKeyMembers<T>(s: seq<T>, key: T -> int, k: int, x: T)
    ensures x in WithKey(s, key, k) <==> x in s && key(x) == k
  {
    if |s| > 0 {
      WithKeyMembers(s[..|s| - 1], key, k, x);
      assert s == s[..|s| - 1] + [s[|s| - 1]];
    }
  }

  lemma {:induction false} WithKeyAppend<T>(a: seq<T>, b: seq<T>, key: T -> int, k: int)
    ensures WithKey(a + b, key, k) == WithKey(a, key, k) + WithKey(b, key, k)
  {
    if |b| == 0 {
      assert a + b == a;
    } else {
      assert (a + b)[..|a + b| - 1] == a + b[..|b| - 1];
      WithKeyAppend(a, b[..|b| - 1], key, k);
    }
  }

  function MapSeq<T, U>(f: T -> U, s: seq<T>): (r: seq<U>)
    ensures |r| == |s| && forall i :: 0 <= i < |s| ==> r[i] == f(s[i])
  {
    if |s| == 0 then []
    else
      var rest := MapSeq(f, s[1..]);
      assert forall i :: 1 <= i < |s| ==> s[i] == s[1..][i - 1];
      [f(s[0])] + rest
  }

  lemma MapSeqCons<T, U>(f: T -> U, x: T, s: seq<T>)
    ensures MapSeq(f, [x] + s) == [f(x)] + MapSeq(f, s)
  {
    assert ([x] + s)[1..] == s;
  }

  lemma MapSeqAppend<T, U>(f: T -> U, a: seq<T>, b: seq<T>)
    ensures MapSeq(f, a + b) == MapSeq(f, a) + MapSeq(f, b)
  {
    var l, r := MapSeq(f, a + b), MapSeq(f, a) + MapSeq(f, b);
    assert |l| == |r|;
    forall i | 0 <= i < |l|
      ensures l[i] == r[i]
    {
      if i < |a| {
        assert (a + b)[i] == a[i];
      } else {
        assert (a + b)[i] == b[i - |a|];
      }
    }
  }

  /** Puts `x` into a sorted list after every element whose key is at most
      `x`'s: the list stays sorted, gains exactly `x`, and `x` comes last
      among the elements that share its key. */
  function Insert<T>(s: seq<T>, x: T, key: T -> int): (r: seq<T>)
    requires SortedBy(s, key)
    ensures SortedBy(r, key)
    ensures multiset(r) == multiset(s) + multiset{x}
    ensures forall k :: WithKey(r, key, k) == WithKey(s, key, k) + (if key(x) == k then [x] else [])
  {
    if |s| == 0 || key(s[|s| - 1]) <= key(x) then
      InsertAtEnd(s, x, key);
      s + [x]
    else
      var init, last := s[..|s| - 1], s[|s| - 1];
      var r' := Insert(init, x, key);
      AllBelowLast(init, x, last, key, r');
      InsertBelowWithKey(init, x, last, key, r');
      assert s == init + [last];
      r' + [last]
  }

  /** `Insert` when `x` belongs after every element of `s`. */
  lemma InsertAtEnd<T>(s: seq<T>, x: T, key: T -> int)
    requires SortedBy(s, key)
    requires |s| == 0 || key(s[|s| - 1]) <= key(x)
    ensures SortedBy(s + [x], key)
    ensures forall k :: WithKey(s + [x], key, k) == WithKey(s, key, k) + (if key(x) == k then [x] else [])
  {
    forall i, j | 0 <= i < j < |s + [x]|
      ensures key((s + [x])[i]) <= key((s + [x])[j])
    {
      if j < |s| {
        assert (s + [x])[i] == s[i] && (s + [x])[j] == s[j];
      } else {
        assert (s + [x])[i] == s[i] && (s + [x])[j] == x;
        assert key(s[i]) <= key(s[|s| - 1]);
      }
    }
    forall k
      ensures WithKey(s + [x], key, k) == WithKey(s, key, k) + (if key(x) == k then [x] else [])
    {
      WithKeySnoc(s, x, key, k);
    }
  }

  /** `Insert` when `x` goes below the last element `last` of `init + [last]`:
      appending `last` to the result for `init` keeps each key's elements in
      order. */
  lemma InsertBelowWithKey<T>(init: seq<T>, x: T, last: T, key: T -> int, r': seq<T>)
    requires forall k :: WithKey(r', key, k) == WithKey(init, key, k) + (if key(x) == k then [x] else [])
    requires key(x) < key(last)
    ensures forall k :: WithKey(r' + [last], key, k)
                        == WithKey(init + [last], key, k) + (if key(x) == k then [x] else [])
  {
    forall k
      ensures WithKey(r' + [last], key, k)
              == WithKey(init + [last], key, k) + (if key(x) == k then [x] else [])
    {
      WithKeySnoc(r', last, key, k);
      WithKeySnoc(init, last, key, k);
    }
  }

  /** Every element of `r'` has a key at most `last`'s, so `r' + [last]` is
      sorted. */
  lemma AllBelowLast<T>(init: seq<T>, x: T, last: T, key: T -> int, r': seq<T>)
    requires SortedBy(init + [last], key)
    requires key(x) < key(last)
    requires multiset(r') == multiset(init) + multiset{x}
    requires SortedBy(r', key)
    ensures SortedBy(r' + [last], key)
  {
    forall i | 0 <= i < |r'|
      ensures key(r'[i]) <= key(last)
    {
      assert r'[i] in multiset(r');
      if r'[i] != x {
        assert r'[i] in multiset(init);
        var j :| 0 <= j < |init| && init[j] == r'[i];
        assert (init + [last])[j] == init[j];
        assert (init + [last])[|init|] == last;
      }
    }
  }

  lemma WithKeySnoc<T>(s: seq<T>, y: T, key: T -> int, k: int)
    ensures WithKey(s + [y], key, k) == WithKey(s, key, k) + (if key(y) == k then [y] else [])
  {
    assert (s + [y])[..|s + [y]| - 1] == s;
  }

  /** Python's `list.sort(key=key)`: an ascending arrangement of the same
      elements in which elements with equal keys keep their input order. */
  function Sort<T>(s: seq<T>, key: T -> int): (r: seq<T>)
    ensures SortedBy(r, key)
    ensures multiset(r) == multiset(s)
    ensures forall k :: WithKey(r, key, k) == WithKey(s, key, k)
  {
    if |s| == 0 then []
    else
      assert s == s[..|s| - 1] + [s[|s| - 1]];
      Insert(Sort(s[..|s| - 1], key), s[|s| - 1], key)
  }

  /** Sorted order plus per-key input order pins the result down: two
      sorted lists that agree on every key's sub-list are equal. Any stable
      sort therefore returns `Sort(s, key)`. */
  lemma {:induction false} StableSortIsUnique<T>(a: seq<T>, b: seq<T>, key: T -> int)
    requires SortedBy(a, key) && SortedBy(b, key)
    requires forall k :: WithKey(a, key, k) == WithKey(b, key, k)
    ensures a == b
    decreases |a| + |b|
  {
    if |a| == 0 || |b| == 0 {
      if |a| > 0 {
        EmptyWithKey(b, a, key);
      } else if |b| > 0 {
        EmptyWithKey(a, b, key);
      }
    } else {
      var la, lb := a[|a| - 1], b[|b| - 1];
      var ia, ib := a[..|a| - 1], b[..|b| - 1];
      WithKeyMembers(a, key, key(lb), lb);
      WithKeyMembers(b, key, key(lb), lb);
      WithKeyMembers(a, key, key(la), la);
      WithKeyMembers(b, key, key(la), la);
      assert key(lb) <= key(la) by {
        var j :| 0 <= j < |a| && a[j] == lb;
        assert j < |a| - 1 ==> key(a[j]) <= key(a[|a| - 1]);
      }
      assert key(la) <= key(lb) by {
        var j :| 0 <= j < |b| && b[j] == la;
        assert j < |b| - 1 ==> key(b[j]) <= key(b[|b| - 1]);
      }
      var K := key(la);
      assert key(lb) == K;
      assert WithKey(a, key, K) == WithKey(ia, key, K) + [la];
      assert WithKey(b, key, K) == WithKey(ib, key, K) + [lb];
      assert la == lb by {
        var wa, wb := WithKey(a, key, K), WithKey(b, key, K);
        assert wa[|wa| - 1] == la && wb[|wb| - 1] == lb;
      }
      forall k
        ensures WithKey(ia, key, k) == WithKey(ib, key, k)
      {
        var wa, wb := WithKey(a, key, k), WithKey(b, key, k);
        assert wa == WithKey(ia, key, k) + (if K == k then [la] else []);
        assert wb == WithKey(ib, key, k) + (if K == k then [lb] else []);
        assert wa == wb;
        if K == k {
          assert (WithKey(ia, key, k) + [la])[..|wa| - 1] == WithKey(ia, key, k);
          assert (WithKey(ib, key, k) + [lb])[..|wb| - 1] == WithKey(ib, key, k);
        } else {
          assert wa == WithKey(ia, key, k) + [];
          assert WithKey(ia, key, k) + [] == WithKey(ia, key, k);
          assert WithKey(ib, key, k) + [] == WithKey(ib, key, k);
        }
      }
      StableSortIsUnique(ia, ib, key);
      assert a == ia + [la] && b == ib + [lb];
    }
  }

  /** A non-empty list cannot agree key by key with the empty list. */
  lemma EmptyWithKey<T>(e: seq<T>, s: seq<T>, key: T -> int)
    requires |e| == 0 && |s| > 0
    ensures exists k :: WithKey(e, key, k) != WithKey(s, key, k)
  {
    var x := s[|s| - 1];
    WithKeyMembers(s, key, key(x), x);
    assert WithKey(s, key, key(x)) != WithKey(e, key, key(x));
  }

  /** Rewriting elements in a way that leaves their keys alone commutes with
      sorting: the sorted order depends on the keys and nothing else. */
  lemma SortMapCommutes<T>(f: T -> T, s: seq<T>, key: T -> int)
    requires forall x :: key(f(x)) == key(x)
    ensures Sort(MapSeq(f, s), key) == MapSeq(f, Sort(s, key))
  {
    var a, b := Sort(MapSeq(f, s), key), MapSeq(f, Sort(s, key));
    MapKeepsSorted(f, Sort(s, key), key);
    forall k
      ensures WithKey(a, key, k) == WithKey(b, key, k)
    {
      WithKeyMap(f, Sort(s, key), key, k);
      WithKeyMap(f, s, key, k);
    }
    StableSortIsUnique(a, b, key);
  }

  /** Taking one key's elements commutes with a key-preserving rewrite. */
  lemma {:induction false} WithKeyMap<T>(f: T -> T, s: seq<T>, key: T -> int, k: int)
    requires forall x :: key(f(x)) == key(x)
    ensures WithKey(MapSeq(f, s), key, k) == MapSeq(f, WithKey(s, key, k))
  {
    if |s| > 0 {
      var init, last := s[..|s| - 1], s[|s| - 1];
      var tail := if key(last) == k then [last] else [];
      assert s == init + [last];
      MapSeqAppend(f, init, [last]);
      WithKeyMap(f, init, key, k);
      WithKeySnoc(MapSeq(f, init), f(last), key, k);
      MapSeqAppend(f, WithKey(init, key, k), tail);
    }
  }

  lemma MapKeepsSorted<T>(f: T -> T, s: seq<T>, key: T -> int)
    requires forall y :: key(f(y)) == key(y)
    requires SortedBy(s, key)
    ensures SortedBy(MapSeq(f, s), key)
  {
    var fs := MapSeq(f, s);
    forall i, j | 0 <= i < j < |fs|
      ensures key(fs[i]) <= key(fs[j])
    {
      assert key(fs[i]) == key(s[i]) && key(fs[j]) == key(s[j]);
    }
  }
}
