/** Total orders given by three-way comparators (negative, zero, positive, as
    `Array.prototype.sort` expects them), lexicographic comparison of sequences, and the
    stable sort the studio uses for its module and chapter lists. */
module Order {

  /** `cmp` is a strict total order: zero exactly on equal arguments, antisymmetric and
      transitive. */
  ghost predicate IsTotalOrder<T(!new)>(cmp: (T, T) -> int) {
    && (forall x, y :: cmp(x, y) == 0 <==> x == y)
    && (forall x, y :: cmp(x, y) < 0 <==> cmp(y, x) > 0)
    && (forall x, y, z :: cmp(x, y) < 0 && cmp(y, z) < 0 ==> cmp(x, z) < 0)
  }

  /** Lexicographic comparison: the first differing position decides, and a proper prefix
      comes first. */
  function LexCmp<T>(a: seq<T>, b: seq<T>, cmp: (T, T) -> int): int {
    if a == [] then (if b == [] then 0 else -1)
    else if b == [] then 1
    else if cmp(a[0], b[0]) != 0 then cmp(a[0], b[0])
    else LexCmp(a[1..], b[1..], cmp)
  }

  lemma {:induction false} LexZero<T(!new)>(a: seq<T>, b: seq<T>, cmp: (T, T) -> int)
    requires IsTotalOrder(cmp)
    ensures LexCmp(a, b, cmp) == 0 <==> a == b
  {
    if a != [] && b != [] && cmp(a[0], b[0]) == 0 {
      LexZero(a[1..], b[1..], cmp);
      assert a == [a[0]] + a[1..] && b == [b[0]] + b[1..];
    }
  }

  lemma {:induction false} LexAntisymmetric<T(!new)>(a: seq<T>, b: seq<T>, cmp: (T, T) -> int)
    requires IsTotalOrder(cmp)
    ensures LexCmp(a, b, cmp) < 0 <==> LexCmp(b, a, cmp) > 0
  {
    if a != [] && b != [] && cmp(a[0], b[0]) == 0 {
      LexAntisymmetric(a[1..], b[1..], cmp);
    }
  }

  lemma {:induction false} LexTransitive<T(!new)>(a: seq<T>, b: seq<T>, c: seq<T>, cmp: (T, T) -> int)
    requires IsTotalOrder(cmp)
    requires LexCmp(a, b, cmp) < 0 && LexCmp(b, c, cmp) < 0
    ensures LexCmp(a, c, cmp) < 0
  {
    if a != [] && b != [] && c != [] && cmp(a[0], b[0]) == 0 && cmp(b[0], c[0]) == 0 {
      LexTransitive(a[1..], b[1..], c[1..], cmp);
    }
  }

  /** Lexicographic order over a total order is a total order. */
  lemma LexIsTotalOrder<T(!new)>(cmp: (T, T) -> int)
    requires IsTotalOrder(cmp)
    ensures IsTotalOrder((a: seq<T>, b: seq<T>) => LexCmp(a, b, cmp))
  {
    forall a: seq<T>, b: seq<T> ensures LexCmp(a, b, cmp) == 0 <==> a == b {
      LexZero(a, b, cmp);
    }
    forall a: seq<T>, b: seq<T> ensures LexCmp(a, b, cmp) < 0 <==> LexCmp(b, a, cmp) > 0 {
      LexAntisymmetric(a, b, cmp);
    }
    forall a: seq<T>, b: seq<T>, c: seq<T> | LexCmp(a, b, cmp) < 0 && LexCmp(b, c, cmp) < 0
      ensures LexCmp(a, c, cmp) < 0
    {
      LexTransitive(a, b, c, cmp);
    }
  }

  /** The elements are in non-decreasing order of their keys. */
  ghost predicate SortedBy<T, K>(s: seq<T>, key: T -> K, cmp: (K, K) -> int) {
    forall i, j :: 0 <= i < j < |s| ==> cmp(key(s[i]), key(s[j])) <= 0
  }

  /** The elements of `s` whose key is `k`, in order. */
  function WithKey<T, K(==)>(s: seq<T>, key: T -> K, k: K): (r: seq<T>)
    ensures |r| <= |s|
  {
    if s == [] then []
    else if key(s[0]) == k then [s[0]] + WithKey(s[1..], key, k)
    else WithKey(s[1..], key, k)
  }

  /** Inserts `x` after every element whose key is not greater than its own. */
  function Insert<T, K>(s: seq<T>, x: T, key: T -> K, cmp: (K, K) -> int): (r: seq<T>)
    ensures multiset(r) == multiset(s) + multiset{x}
  {
    if s == [] then [x]
    else if cmp(key(x), key(s[0])) < 0 then [x] + s
    else
      assert s == [s[0]] + s[1..];
      [s[0]] + Insert(s[1..], x, key, cmp)
  }

  /** A stable sort by key: insertion sort, inserting each element after the equal keys
      already placed. */
  function SortBy<T, K>(s: seq<T>, key: T -> K, cmp: (K, K) -> int): (r: seq<T>)
    ensures multiset(r) == multiset(s)
  {
    if s == [] then []
    else
      assert s == s[..|s| - 1] + [s[|s| - 1]];
      Insert(SortBy(s[..|s| - 1], key, cmp), s[|s| - 1], key, cmp)
  }

  lemma {:induction false} InsertSorted<T, K(!new)>(s: seq<T>, x: T, key: T -> K, cmp: (K, K) -> int)
    requires IsTotalOrder(cmp) && SortedBy(s, key, cmp)
    ensures SortedBy(Insert(s, x, key, cmp), key, cmp)
  {
    if s != [] && cmp(key(x), key(s[0])) >= 0 {
      var t := Insert(s[1..], x, key, cmp);
      InsertSorted(s[1..], x, key, cmp);
      assert cmp(key(s[0]), key(x)) <= 0;
      InsertBounded(s[1..], x, key, cmp, key(s[0]));
      ConsSorted(s[0], t, key, cmp);
    } else if s != [] {
      forall j | 0 <= j < |s| ensures cmp(key(x), key(s[j])) <= 0 {
        if j > 0 {
          assert cmp(key(s[0]), key(s[j])) <= 0;
        }
      }
      ConsSorted(x, s, key, cmp);
    }
  }

  /** Every key in `s` is at least `b`. */
  ghost predicate BoundedBelow<T, K>(b: K, s: seq<T>, key: T -> K, cmp: (K, K) -> int) {
    forall i :: 0 <= i < |s| ==> cmp(b, key(s[i])) <= 0
  }

  /** A sorted sequence stays sorted with a lower bound of its keys in front. */
  lemma ConsSorted<T, K>(y: T, t: seq<T>, key: T -> K, cmp: (K, K) -> int)
    requires SortedBy(t, key, cmp) && BoundedBelow(key(y), t, key, cmp)
    ensures SortedBy([y] + t, key, cmp)
  {
    var r := [y] + t;
    forall i, j | 0 <= i < j < |r| ensures cmp(key(r[i]), key(r[j])) <= 0 {
      assert r[j] == t[j - 1];
      if i > 0 {
        assert r[i] == t[i - 1];
      }
    }
  }

  /** A lower bound of `x` and of every element of `s` bounds every element of the
      insertion. */
  lemma {:induction false} InsertBounded<T, K>(s: seq<T>, x: T, key: T -> K, cmp: (K, K) -> int, b: K)
    requires BoundedBelow(b, s, key, cmp) && cmp(b, key(x)) <= 0
    ensures BoundedBelow(b, Insert(s, x, key, cmp), key, cmp)
  {
    if s == [] {
      assert Insert(s, x, key, cmp) == [x];
    } else if cmp(key(x), key(s[0])) < 0 {
      var r := [x] + s;
      assert Insert(s, x, key, cmp) == r;
      forall i | 0 <= i < |r| ensures cmp(b, key(r[i])) <= 0 {
        if i > 0 {
          assert r[i] == s[i - 1];
        }
      }
    } else {
      assert BoundedBelow(b, s[1..], key, cmp) by {
        forall i | 0 <= i < |s[1..]| ensures cmp(b, key(s[1..][i])) <= 0 {
          assert s[1..][i] == s[i + 1];
        }
      }
      InsertBounded(s[1..], x, key, cmp, b);
      var t := Insert(s[1..], x, key, cmp);
      var r := [s[0]] + t;
      assert Insert(s, x, key, cmp) == r;
      forall i | 0 <= i < |r| ensures cmp(b, key(r[i])) <= 0 {
        if i > 0 {
          assert r[i] == t[i - 1];
        }
      }
    }
  }

  /** The result of `SortBy` is ordered by key. */
  lemma {:induction false} SortBySorted<T, K(!new)>(s: seq<T>, key: T -> K, cmp: (K, K) -> int)
    requires IsTotalOrder(cmp)
    ensures SortedBy(SortBy(s, key, cmp), key, cmp)
  {
    if s != [] {
      SortBySorted(s[..|s| - 1], key, cmp);
      InsertSorted(SortBy(s[..|s| - 1], key, cmp), s[|s| - 1], key, cmp);
    }
  }

  lemma {:induction false} WithKeyAppend<T, K>(s: seq<T>, x: T, key: T -> K, k: K)
    ensures WithKey(s + [x], key, k) == WithKey(s, key, k) + (if key(x) == k then [x] else [])
  {
    if s == [] {
      assert s + [x] == [x];
    } else {
      assert (s + [x])[0] == s[0] && (s + [x])[1..] == s[1..] + [x];
      WithKeyAppend(s[1..], x, key, k);
    }
  }

  /** Selecting by key keeps every element with that key as often as it occurs, and no
      other element. */
  lemma {:induction false} WithKeyMultiset<T, K>(s: seq<T>, key: T -> K, k: K)
    ensures forall x :: multiset(WithKey(s, key, k))[x] == if key(x) == k then multiset(s)[x] else 0
  {
    if s != [] {
      WithKeyMultiset(s[1..], key, k);
      assert s == [s[0]] + s[1..];
    }
  }

  /** No element has key `k`: nothing is selected. */
  lemma {:induction false} WithKeyAbsent<T, K>(s: seq<T>, key: T -> K, k: K)
    requires forall i :: 0 <= i < |s| ==> key(s[i]) != k
    ensures WithKey(s, key, k) == []
  {
    if s != [] {
      WithKeyAbsent(s[1..], key, k);
    }
  }

  /** In a sorted sequence whose first key is greater than `k`, no element has key `k`. */
  lemma {:induction false} NoKeyBelowFirst<T, K(!new)>(s: seq<T>, key: T -> K, cmp: (K, K) -> int, k: K)
    requires IsTotalOrder(cmp) && SortedBy(s, key, cmp)
    requires s != [] && cmp(k, key(s[0])) < 0
    ensures WithKey(s, key, k) == []
  {
    if |s| > 1 {
      assert cmp(key(s[0]), key(s[1])) <= 0;
      NoKeyBelowFirst(s[1..], key, cmp, k);
    }
  }

  /** Inserting into a sorted sequence appends `x` to the elements that share its key. */
  lemma {:induction false} InsertWithKey<T, K(!new)>(s: seq<T>, x: T, key: T -> K, cmp: (K, K) -> int, k: K)
    requires IsTotalOrder(cmp) && SortedBy(s, key, cmp)
    ensures WithKey(Insert(s, x, key, cmp), key, k) == WithKey(s, key, k) + (if key(x) == k then [x] else [])
  {
    if s == [] {
    } else if cmp(key(x), key(s[0])) < 0 {
      if key(x) == k {
        NoKeyBelowFirst(s, key, cmp, k);
      }
      assert ([x] + s)[1..] == s;
    } else {
      var t := Insert(s[1..], x, key, cmp);
      assert Insert(s, x, key, cmp) == [s[0]] + t;
      assert SortedBy(s[1..], key, cmp);
      InsertWithKey(s[1..], x, key, cmp, k);
      assert ([s[0]] + t)[1..] == t;
    }
  }

  /** Stability: for every key, the elements with that key keep their input order. */
  lemma {:induction false} SortByStable<T, K(!new)>(s: seq<T>, key: T -> K, cmp: (K, K) -> int, k: K)
    requires IsTotalOrder(cmp)
    ensures WithKey(SortBy(s, key, cmp), key, k) == WithKey(s, key, k)
  {
    if s != [] {
      var init, x := s[..|s| - 1], s[|s| - 1];
      assert init + [x] == s;
      var sorted := SortBy(init, key, cmp);
      assert SortBy(s, key, cmp) == Insert(sorted, x, key, cmp);
      SortByStable(init, key, cmp, k);
      SortBySorted(init, key, cmp);
      InsertStable(sorted, init, x, key, cmp, k);
    }
  }

  /** One step of the insertion sort keeps the elements of each key in input order. */
  lemma InsertStable<T, K(!new)>(sorted: seq<T>, init: seq<T>, x: T, key: T -> K, cmp: (K, K) -> int, k: K)
    requires IsTotalOrder(cmp) && SortedBy(sorted, key, cmp)
    requires WithKey(sorted, key, k) == WithKey(init, key, k)
    ensures WithKey(Insert(sorted, x, key, cmp), key, k) == WithKey(init + [x], key, k)
  {
    InsertWithKey(sorted, x, key, cmp, k);
    WithKeyAppend(init, x, key, k);
  }
}
