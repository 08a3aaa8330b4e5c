/**
 * `Array.prototype.sort` with a numeric comparator (`(a, b) => key(a) - key(b)`),
 * modelled as a stable insertion sort on sequences. The handler uses it to
 * order price rows by close and year records by year.
 */
module Sorting {

  predicate SortedBy<T>(s: seq<T>, key: T -> int) {
    forall i, j :: 0 <= i < j < |s| ==> key(s[i]) <= key(s[j])
  }

  /** Inserts `x` before the first element whose key is not smaller. */
  function Insert<T>(x: T, s: seq<T>, key: T -> int): (r: seq<T>)
    requires SortedBy(s, key)
    ensures SortedBy(r, key)
    ensures multiset(r) == multiset(s) + multiset{x}
    ensures |r| == |s| + 1
    ensures r[0] == x || (s != [] && r[0] == s[0])
  {
    if s == [] || key(x) <= key(s[0]) then
      PrependSorted(x, s, key);
      [x] + s
    else
      assert SortedBy(s[1..], key) by {
        assert forall i :: 0 <= i < |s| - 1 ==> s[1..][i] == s[i + 1];
      }
      var rest := Insert(x, s[1..], key);
      PrependSorted(s[0], rest, key);
      assert multiset(s) == multiset{s[0]} + multiset(s[1..]) by {
        assert s == [s[0]] + s[1..];
      }
      [s[0]] + rest
  }

  lemma PrependSorted<T>(x: T, s: seq<T>, key: T -> int)
    requires SortedBy(s, key) && (s == [] || key(x) <= key(s[0]))
    ensures SortedBy([x] + s, key)
  {
    var r := [x] + s;
    forall i, j | 0 <= i < j < |r| ensures key(r[i]) <= key(r[j]) {
      if i == 0 && j > 1 {
        assert r[j] == s[j - 1] && key(s[0]) <= key(s[j - 1]);
      }
    }
  }

  /** The elements of `s` ordered by `key`, equal keys keeping their relative order. */
  function SortBy<T>(s: seq<T>, key: T -> int): (r: seq<T>)
    ensures SortedBy(r, key)
    ensures multiset(r) == multiset(s)
    ensures |r| == |s|
  {
    if s == [] then []
    else
      assert s == [s[0]] + s[1..];
      Insert(s[0], SortBy(s[1..], key), key)
  }

  /** Sorting a sequence that is already in order leaves it unchanged. */
  lemma {:induction false} SortByKeepsSorted<T>(s: seq<T>, key: T -> int)
    requires SortedBy(s, key)
    ensures SortBy(s, key) == s
  {
    if s != [] {
      SortByKeepsSorted(s[1..], key);
      assert SortBy(s[1..], key) == s[1..];
      if |s| > 1 {
        assert key(s[0]) <= key(s[1..][0]);
      }
      assert [s[0]] + s[1..] == s;
    }
  }

  /**
   * In a sorted sequence the first `k` elements are sorted, drawn from it,
   * and no larger than anything after them.
   */
  lemma SortedPrefixSmallest<T>(s: seq<T>, key: T -> int, k: nat)
    requires SortedBy(s, key) && 0 < k <= |s|
    ensures SortedBy(s[..k], key)
    ensures multiset(s) - multiset(s[..k]) == multiset(s[k..])
    ensures multiset(s[..k]) <= multiset(s)
    ensures forall x :: x in multiset(s[k..]) ==> key(s[k - 1]) <= key(x)
  {
    assert s == s[..k] + s[k..];
    forall x | x in multiset(s[k..]) ensures key(s[k - 1]) <= key(x) {
      var j :| k <= j < |s| && s[j] == x;
    }
  }

  /** `s.map(f)`. */
  function Project<A, B>(s: seq<A>, f: A -> B): (r: seq<B>)
    ensures |r| == |s|
    ensures forall i :: 0 <= i < |s| ==> r[i] == f(s[i])
  {
    if s == [] then [] else [f(s[0])] + Project(s[1..], f)
  }

  /** The projection of a concatenation is the concatenation of the projections. */
  lemma {:induction false} ProjectAppend<A, B>(a: seq<A>, b: seq<A>, f: A -> B)
    ensures Project(a + b, f) == Project(a, f) + Project(b, f)
  {
    if a != [] {
      assert (a + b)[1..] == a[1..] + b;
      ProjectAppend(a[1..], b, f);
    } else {
      assert a + b == b;
    }
  }

  lemma ProjectSorted<A, B>(s: seq<A>, f: A -> B, ka: A -> int, kb: B -> int)
    requires forall a :: kb(f(a)) == ka(a)
    requires SortedBy(s, ka)
    ensures SortedBy(Project(s, f), kb)
  {
  }

  lemma {:induction false} ProjectInsert<A, B>(x: A, s: seq<A>, f: A -> B, ka: A -> int, kb: B -> int)
    requires forall a :: kb(f(a)) == ka(a)
    requires SortedBy(s, ka)
    ensures SortedBy(Project(s, f), kb)
    ensures Project(Insert(x, s, ka), f) == Insert(f(x), Project(s, f), kb)
  {
    ProjectSorted(s, f, ka, kb);
    var ps := Project(s, f);
    if s == [] || ka(x) <= ka(s[0]) {
      assert ([x] + s)[1..] == s;
      assert Project([x] + s, f) == [f(x)] + ps;
    } else {
      assert SortedBy(s[1..], ka);
      ProjectInsert(x, s[1..], f, ka, kb);
      var rest := Insert(x, s[1..], ka);
      assert ps != [] && ps[0] == f(s[0]) && kb(f(x)) > kb(ps[0]);
      calc {
        Project(Insert(x, s, ka), f);
      ==
        Project([s[0]] + rest, f);
      == { assert ([s[0]] + rest)[1..] == rest; }
        [f(s[0])] + Project(rest, f);
      == { assert ps[1..] == Project(s[1..], f); }
        [ps[0]] + Insert(f(x), ps[1..], kb);
      ==
        Insert(f(x), ps, kb);
      }
    }
  }

  lemma {:induction false} ProjectSort<A, B>(s: seq<A>, f: A -> B, ka: A -> int, kb: B -> int)
    requires forall a :: kb(f(a)) == ka(a)
    ensures Project(SortBy(s, ka), f) == SortBy(Project(s, f), kb)
  {
    if s != [] {
      ProjectSort(s[1..], f, ka, kb);
      assert Project(s, f)[1..] == Project(s[1..], f);
      ProjectInsert(s[0], SortBy(s[1..], ka), f, ka, kb);
    }
  }
}
