/** Python's `sorted(..., key=...)` and `bisect.bisect_right`.

    The source sorts by tuple keys; `Key` is such a tuple, compared
    lexicographically.  `SortBy` is a stable sort, and `StableSortIsUnique`
    shows that every stable sort returns the very same list, so nothing about
    the library's algorithm is assumed.
 */
module Sorting {

  datatype Key = Key(a: int, b: int, c: real)

  predicate Le(x: Key, y: Key)
  {
    x.a < y.a || (x.a == y.a && (x.b < y.b || (x.b == y.b && x.c <= y.c)))
  }

  ghost predicate Sorted<T>(s: seq<T>, key: T -> Key)
  {
    forall i, j :: 0 <= i < j < |s| ==> Le(key(s[i]), key(s[j]))
  }

  /** Sorted with no two equal keys. */
  ghost predicate StrictlySorted<T>(s: seq<T>, key: T -> Key)
  {
    forall i, j :: 0 <= i < j < |s| ==> !Le(key(s[j]), key(s[i]))
  }

  /** Inserts `x` in front of the first element whose key is not smaller. */
  function Insert<T>(x: T, s: seq<T>, key: T -> Key): (r: seq<T>)
  {
    if s == [] || Le(key(x), key(s[0])) then [x] + s else [s[0]] + Insert(x, s[1..], key)
  }

  function SortBy<T>(s: seq<T>, key: T -> Key): (r: seq<T>)
  {
    if s == [] then [] else Insert(s[0], SortBy(s[1..], key), key)
  }

  function Filter<T>(s: seq<T>, p: T -> bool): (r: seq<T>)
  {
    if s == [] then []
    else if p(s[0]) then [s[0]] + Filter(s[1..], p)
    else Filter(s[1..], p)
  }

  /** The number of leading elements not above `x`: the insertion point that
      `bisect_right` finds in a sorted list. */
  function BisectRight(s: seq<int>, x: int): (n: nat)
    ensures n <= |s|
    ensures forall i :: 0 <= i < n ==> s[i] <= x
    ensures n < |s| ==> s[n] > x
  {
    if s == [] || s[0] > x then 0 else
      var m := BisectRight(s[1..], x);
      assert forall i :: 1 <= i < m + 1 ==> s[i] == s[1..][i - 1];
      m + 1
  }

  lemma {:induction false} InsertKeepsElements<T>(x: T, s: seq<T>, key: T -> Key)
    ensures multiset(Insert(x, s, key)) == multiset(s) + multiset{x}
  {
    if s == [] || Le(key(x), key(s[0])) {
    } else {
      InsertKeepsElements(x, s[1..], key);
      assert s == [s[0]] + s[1..];
    }
  }

  lemma InsertMember<T>(x: T, s: seq<T>, key: T -> Key, y: T)
    ensures y in Insert(x, s, key) <==> y == x || y in s
  {
    InsertKeepsElements(x, s, key);
    assert y in Insert(x, s, key) <==> y in multiset(Insert(x, s, key));
    assert y in s <==> y in multiset(s);
  }

  lemma {:induction false} InsertSorts<T>(x: T, s: seq<T>, key: T -> Key)
    requires Sorted(s, key)
    ensures Sorted(Insert(x, s, key), key)
  {
    if s == [] || Le(key(x), key(s[0])) {
    } else {
      InsertSorts(x, s[1..], key);
      var r := Insert(x, s[1..], key);
      forall j | 0 <= j < |r| ensures Le(key(s[0]), key(r[j])) {
        InsertMember(x, s[1..], key, r[j]);
      }
    }
  }

  /** The sort returns a sorted permutation of its input. */
  lemma {:induction false} SortSorts<T>(s: seq<T>, key: T -> Key)
    ensures Sorted(SortBy(s, key), key)
    ensures multiset(SortBy(s, key)) == multiset(s)
    ensures |SortBy(s, key)| == |s|
    ensures forall x :: x in SortBy(s, key) <==> x in s
  {
    if s != [] {
      SortSorts(s[1..], key);
      InsertSorts(s[0], SortBy(s[1..], key), key);
      InsertKeepsElements(s[0], SortBy(s[1..], key), key);
      forall x ensures x in SortBy(s, key) <==> x in s {
        InsertMember(s[0], SortBy(s[1..], key), key, x);
        assert x in SortBy(s[1..], key) <==> x in s[1..];
        assert s == [s[0]] + s[1..];
      }
      assert s == [s[0]] + s[1..];
      assert |multiset(SortBy(s, key))| == |SortBy(s, key)|;
      assert |multiset(s)| == |s|;
    }
  }

  lemma {:induction false} FilterMembers<T>(s: seq<T>, p: T -> bool)
    ensures forall x :: x in Filter(s, p) <==> x in s && p(x)
  {
    if s != [] {
      FilterMembers(s[1..], p);
      assert s == [s[0]] + s[1..];
    }
  }

  lemma FilterMember<T>(s: seq<T>, p: T -> bool, x: T)
    ensures x in Filter(s, p) <==> x in s && p(x)
  {
    FilterMembers(s, p);
  }

  lemma FilterCons<T>(x: T, s: seq<T>, p: T -> bool)
    ensures Filter([x] + s, p) == (if p(x) then [x] else []) + Filter(s, p)
  {
    assert ([x] + s)[1..] == s;
  }

  lemma {:induction false} FilterConcat<T>(s: seq<T>, t: seq<T>, p: T -> bool)
    ensures Filter(s + t, p) == Filter(s, p) + Filter(t, p)
  {
    if s == [] {
      assert s + t == t;
    } else {
      assert (s + t)[1..] == s[1..] + t;
      FilterConcat(s[1..], t, p);
    }
  }

  lemma FilterSnoc<T>(s: seq<T>, x: T, p: T -> bool)
    ensures Filter(s + [x], p) == if p(x) then Filter(s, p) + [x] else Filter(s, p)
  {
    FilterConcat(s, [x], p);
  }

  lemma {:induction false} FilterAll<T>(s: seq<T>, p: T -> bool)
    requires forall x :: x in s ==> p(x)
    ensures Filter(s, p) == s
  {
    if s != [] {
      FilterAll(s[1..], p);
    }
  }

  lemma {:induction false} FilterNone<T>(s: seq<T>, p: T -> bool)
    requires forall x :: x in s ==> !p(x)
    ensures Filter(s, p) == []
  {
    if s != [] {
      FilterNone(s[1..], p);
    }
  }

  lemma {:induction false} InsertFilter<T>(x: T, s: seq<T>, key: T -> Key, p: T -> bool)
    requires Sorted(s, key)
    ensures Filter(Insert(x, s, key), p)
         == if p(x) then Insert(x, Filter(s, p), key) else Filter(s, p)
  {
    var f := Filter(s, p);
    if s == [] || Le(key(x), key(s[0])) {
      FilterCons(x, s, p);
      if f != [] {
        FilterMember(s, p, f[0]);
      }
    } else {
      InsertFilter(x, s[1..], key, p);
      FilterCons(s[0], Insert(x, s[1..], key), p);
      if p(s[0]) {
        assert f[1..] == Filter(s[1..], p);
      } else {
        assert f == Filter(s[1..], p);
      }
    }
  }

  /** Stability: selecting and sorting commute.  With `p` a test for one key
      this says that equal keys keep their order. */
  lemma {:induction false} SortFilter<T>(s: seq<T>, key: T -> Key, p: T -> bool)
    ensures Filter(SortBy(s, key), p) == SortBy(Filter(s, p), key)
  {
    if s != [] {
      SortFilter(s[1..], key, p);
      SortSorts(s[1..], key);
      InsertFilter(s[0], SortBy(s[1..], key), key, p);
      if p(s[0]) {
        assert Filter(s, p)[1..] == Filter(s[1..], p);
      } else {
        assert Filter(s, p) == Filter(s[1..], p);
      }
    }
  }

  lemma {:induction false} SortOfSorted<T>(s: seq<T>, key: T -> Key)
    requires Sorted(s, key)
    ensures SortBy(s, key) == s
  {
    if s != [] {
      SortOfSorted(s[1..], key);
    }
  }

  /** The elements of `s` whose key is `k`, in the order of `s`. */
  function WithKey<T>(s: seq<T>, key: T -> Key, k: Key): (r: seq<T>)
  {
    Filter(s, x => key(x) == k)
  }

  lemma WithKeyMembers<T>(s: seq<T>, key: T -> Key, k: Key)
    ensures forall x :: x in WithKey(s, key, k) <==> x in s && key(x) == k
  {
    FilterMembers(s, x => key(x) == k);
  }

  lemma WithKeyConcat<T>(s: seq<T>, t: seq<T>, key: T -> Key, k: Key)
    ensures WithKey(s + t, key, k) == WithKey(s, key, k) + WithKey(t, key, k)
  {
    FilterConcat(s, t, x => key(x) == k);
  }

  lemma WithKeySnoc<T>(s: seq<T>, x: T, key: T -> Key, k: Key)
    ensures WithKey(s + [x], key, k) == if key(x) == k then WithKey(s, key, k) + [x] else WithKey(s, key, k)
  {
    FilterSnoc(s, x, x => key(x) == k);
  }

  lemma WithKeyOfSort<T>(s: seq<T>, key: T -> Key, k: Key)
    ensures WithKey(SortBy(s, key), key, k) == WithKey(s, key, k)
  {
    SortFilter(s, key, x => key(x) == k);
    var f := WithKey(s, key, k);
    forall i | 0 <= i < |f| ensures key(f[i]) == k {
      FilterMember(s, x => key(x) == k, f[i]);
    }
    SortOfSorted(f, key);
  }

  /** A sorted list is determined by its elements of each key, taken in order:
      any two stable sorts of one list agree. */
  lemma StableSortIsUnique<T>(s: seq<T>, t: seq<T>, key: T -> Key)
    requires Sorted(t, key)
    requires forall k: Key :: WithKey(t, key, k) == WithKey(s, key, k)
    ensures t == SortBy(s, key)
  {
    SortSorts(s, key);
    forall k: Key ensures WithKey(t, key, k) == WithKey(SortBy(s, key), key, k) {
      WithKeyOfSort(s, key, k);
    }
    SortedByClasses(t, SortBy(s, key), key);
  }

  lemma HeadsAgree<T>(t: seq<T>, u: seq<T>, key: T -> Key)
    requires Sorted(t, key) && Sorted(u, key) && t != []
    requires forall k: Key :: WithKey(t, key, k) == WithKey(u, key, k)
    ensures u != [] && t[0] == u[0]
  {
    var k0 := key(t[0]);
    WithKeyMembers(t, key, k0);
    WithKeyMembers(u, key, k0);
    assert t[0] in WithKey(u, key, k0);
    assert t[0] in u;
    var k1 := key(u[0]);
    WithKeyMembers(t, key, k1);
    WithKeyMembers(u, key, k1);
    assert u[0] in WithKey(t, key, k1);
    assert u[0] in t;
    assert Le(k0, k1) && Le(k1, k0);
    assert WithKey(t, key, k0)[0] == t[0];
    assert WithKey(u, key, k0)[0] == u[0];
  }

  lemma {:induction false} SortedByClasses<T>(t: seq<T>, u: seq<T>, key: T -> Key)
    requires Sorted(t, key) && Sorted(u, key)
    requires forall k: Key :: WithKey(t, key, k) == WithKey(u, key, k)
    ensures t == u
  {
    if t == [] {
      if u != [] {
        HeadsAgree(u, t, key);
      }
    } else {
      HeadsAgree(t, u, key);
      forall k: Key ensures WithKey(t[1..], key, k) == WithKey(u[1..], key, k) {
        var h := if key(t[0]) == k then [t[0]] else [];
        assert WithKey(t, key, k) == h + WithKey(t[1..], key, k);
        assert WithKey(u, key, k) == h + WithKey(u[1..], key, k);
        assert WithKey(t[1..], key, k) == WithKey(t, key, k)[|h|..];
      }
      SortedByClasses(t[1..], u[1..], key);
      assert t == [t[0]] + t[1..] && u == [u[0]] + u[1..];
    }
  }

  /** A strictly sorted list is determined by its set of elements. */
  lemma {:induction false} StrictlySortedUnique<T>(s: seq<T>, t: seq<T>, key: T -> Key)
    requires StrictlySorted(s, key) && StrictlySorted(t, key)
    requires forall x :: x in s <==> x in t
    ensures s == t
  {
    assert t != [] ==> t[0] in s;
    assert s != [] ==> s[0] in t;
    if s != [] {
      assert s[0] in t && t[0] in s;
      assert s[0] == t[0];
      forall x ensures x in s[1..] <==> x in t[1..] {
        if x in s[1..] { assert x in t && x != s[0]; }
        if x in t[1..] { assert x in s && x != t[0]; }
      }
      StrictlySortedUnique(s[1..], t[1..], key);
      assert s == [s[0]] + s[1..] && t == [t[0]] + t[1..];
    }
  }
}
