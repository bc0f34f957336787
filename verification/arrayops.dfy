/** The two array methods the versioner relies on. `Array.prototype.sort`
    with a comparator is a stable sort; both uses in the source compare by a
    natural-number key, so the sort here is a stable insertion sort on such a
    key. `Array.prototype.find` returns the first element satisfying a test. */
module ArrayOps {
  import opened Wrappers

  ghost predicate SortedBy<T>(s: seq<T>, key: T -> nat) {
    forall i, j :: 0 <= i < j < |s| ==> key(s[i]) <= key(s[j])
  }

  /** `s[i]` is the earliest element of least key. */
  ghost predicate IsFirstMin<T>(s: seq<T>, key: T -> nat, i: int) {
    && 0 <= i < |s|
    && (forall j :: 0 <= j < |s| ==> key(s[i]) <= key(s[j]))
    && (forall j :: 0 <= j < i ==> key(s[i]) < key(s[j]))
  }

  /** Places `x` before the first element whose key is not smaller, so `x`
      stays ahead of the equal-key elements that came after it in the input. */
  function Insert<T>(x: T, s: seq<T>, key: T -> nat): (r: seq<T>)
    requires SortedBy(s, key)
    ensures |r| == |s| + 1
    ensures multiset(r) == multiset(s) + multiset{x}
    ensures SortedBy(r, key)
  {
    if |s| == 0 || key(x) <= key(s[0]) then [x] + s
    else
      var tail := Insert(x, s[1..], key);
      assert s == [s[0]] + s[1..];
      HeadBelowInsert(x, s, key, tail);
      [s[0]] + tail
  }

  lemma HeadBelowInsert<T>(x: T, s: seq<T>, key: T -> nat, tail: seq<T>)
    requires |s| > 0 && SortedBy(s, key) && key(s[0]) < key(x)
    requires multiset(tail) == multiset(s[1..]) + multiset{x}
    ensures forall j :: 0 <= j < |tail| ==> key(s[0]) <= key(tail[j])
  {
    forall j | 0 <= j < |tail|
      ensures key(s[0]) <= key(tail[j])
    {
      var e := tail[j];
      assert e in multiset(tail);
      if e != x {
        assert e in multiset(s[1..]);
        var k :| 0 <= k < |s[1..]| && s[1..][k] == e;
        assert s[k + 1] == e;
      }
    }
  }

  /** Stable sort by `key`. */
  function SortBy<T>(s: seq<T>, key: T -> nat): (r: seq<T>)
    ensures |r| == |s|
    ensures multiset(r) == multiset(s)
    ensures SortedBy(r, key)
  {
    if |s| == 0 then []
    else
      assert s == [s[0]] + s[1..];
      Insert(s[0], SortBy(s[1..], key), key)
  }

  /** The elements of `s` whose key is `k`, in their order in `s`. */
  function WithKey<T>(s: seq<T>, key: T -> nat, k: nat): (r: seq<T>)
    ensures |r| <= |s|
    ensures forall i :: 0 <= i < |r| ==> key(r[i]) == k
  {
    if |s| == 0 then []
    else (if key(s[0]) == k then [s[0]] else []) + WithKey(s[1..], key, k)
  }

  lemma WithKeyCons<T>(x: T, s: seq<T>, key: T -> nat, k: nat)
    ensures WithKey([x] + s, key, k) == (if key(x) == k then [x] else []) + WithKey(s, key, k)
  {
    assert ([x] + s)[1..] == s;
  }

  /** Inserting `x` puts it ahead of the elements that share its key and
      leaves every other key's elements in their order. */
  lemma {:induction false} InsertWithKey<T>(x: T, s: seq<T>, key: T -> nat, k: nat)
    requires SortedBy(s, key)
    ensures WithKey(Insert(x, s, key), key, k) == (if key(x) == k then [x] else []) + WithKey(s, key, k)
  {
    if |s| == 0 || key(x) <= key(s[0]) {
      WithKeyCons(x, s, key, k);
    } else {
      var tail := Insert(x, s[1..], key);
      assert s == [s[0]] + s[1..];
      InsertWithKey(x, s[1..], key, k);
      WithKeyCons(s[0], tail, key, k);
      WithKeyCons(s[0], s[1..], key, k);
    }
  }

  /** The sort is stable: for every key, the elements with that key appear
      in the result in the order they had in the input. */
  lemma {:induction false} SortByStable<T>(s: seq<T>, key: T -> nat, k: nat)
    ensures WithKey(SortBy(s, key), key, k) == WithKey(s, key, k)
  {
    if |s| > 0 {
      SortByStable(s[1..], key, k);
      InsertWithKey(s[0], SortBy(s[1..], key), key, k);
    }
  }

  /** Index of the earliest element of least key. */
  function FirstMinIndex<T>(s: seq<T>, key: T -> nat): (i: nat)
    requires |s| > 0
    ensures IsFirstMin(s, key, i)
  {
    if |s| == 1 then 0
    else
      var k := FirstMinIndex(s[1..], key);
      if key(s[0]) <= key(s[1..][k]) then 0 else k + 1
  }

  /** The first element of a stable sort is the earliest element of least
      key: this is what taking `[0]` after `sort` selects. */
  lemma {:induction false} SortHeadIsFirstMin<T>(s: seq<T>, key: T -> nat)
    requires |s| > 0
    ensures SortBy(s, key)[0] == s[FirstMinIndex(s, key)]
  {
    if |s| > 1 {
      SortHeadIsFirstMin(s[1..], key);
      var rest := SortBy(s[1..], key);
      assert rest[0] == s[1..][FirstMinIndex(s[1..], key)];
    }
  }

  /** No two different elements of `s` share a key. */
  ghost predicate KeyInjective<T>(s: seq<T>, key: T -> nat) {
    forall i, j :: 0 <= i < |s| && 0 <= j < |s| && key(s[i]) == key(s[j]) ==> s[i] == s[j]
  }

  /** Two sorted arrangements of the same elements coincide when no two
      different elements share a key: the sort's output does not depend on
      the input order. */
  lemma {:induction false} SortedPermutationsEqual<T>(a: seq<T>, b: seq<T>, key: T -> nat)
    requires SortedBy(a, key) && SortedBy(b, key)
    requires multiset(a) == multiset(b)
    requires KeyInjective(a, key)
    ensures a == b
  {
    assert |a| == |multiset(a)| == |multiset(b)| == |b|;
    if |a| > 0 {
      SameHead(a, b, key);
      SameTail(a, b);
      InjectiveTail(a, key);
      SortedPermutationsEqual(a[1..], b[1..], key);
      assert a == [a[0]] + a[1..];
      assert b == [b[0]] + b[1..];
    }
  }

  lemma SameHead<T>(a: seq<T>, b: seq<T>, key: T -> nat)
    requires SortedBy(a, key) && SortedBy(b, key)
    requires multiset(a) == multiset(b)
    requires KeyInjective(a, key)
    requires |a| > 0 && |b| > 0
    ensures a[0] == b[0]
  {
    assert a[0] in multiset(b);
    var i :| 0 <= i < |b| && b[i] == a[0];
    assert b[0] in multiset(a);
    var j :| 0 <= j < |a| && a[j] == b[0];
    assert key(a[0]) <= key(a[j]);
    assert key(b[0]) <= key(b[i]);
  }

  lemma SameTail<T>(a: seq<T>, b: seq<T>)
    requires multiset(a) == multiset(b)
    requires |a| > 0 && |b| > 0 && a[0] == b[0]
    ensures multiset(a[1..]) == multiset(b[1..])
  {
    assert a == [a[0]] + a[1..];
    assert b == [b[0]] + b[1..];
    var ma, mb := multiset(a[1..]), multiset(b[1..]);
    assert multiset(a) == multiset{a[0]} + ma;
    assert multiset(b) == multiset{a[0]} + mb;
    forall e ensures ma[e] == mb[e] {
      assert (multiset{a[0]} + ma)[e] == multiset{a[0]}[e] + ma[e];
      assert (multiset{a[0]} + mb)[e] == multiset{a[0]}[e] + mb[e];
    }
  }

  lemma InjectiveTail<T>(a: seq<T>, key: T -> nat)
    requires |a| > 0 && KeyInjective(a, key)
    ensures KeyInjective(a[1..], key)
  {
    forall p, q | 0 <= p < |a[1..]| && 0 <= q < |a[1..]| && key(a[1..][p]) == key(a[1..][q])
      ensures a[1..][p] == a[1..][q]
    {
      assert a[1..][p] == a[p + 1] && a[1..][q] == a[q + 1];
    }
  }

  /** Index of the first element satisfying `p` (what `find` returns the
      element at), or `None` when no element does. */
  function FindIndex<T>(s: seq<T>, p: T -> bool): (r: Option<nat>)
    ensures r.Some? ==> r.value < |s| && p(s[r.value])
    ensures r.Some? ==> forall j :: 0 <= j < r.value ==> !p(s[j])
    ensures r.None? ==> forall j :: 0 <= j < |s| ==> !p(s[j])
  {
    if |s| == 0 then None
    else if p(s[0]) then Some(0)
    else
      match FindIndex(s[1..], p)
      case None => None
      case Some(i) => Some(i + 1)
  }

  /** `find` returns exactly the first element passing the test. */
  lemma {:induction false} FindIndexFirst<T>(s: seq<T>, p: T -> bool, i: nat)
    requires i < |s| && p(s[i])
    requires forall j :: 0 <= j < i ==> !p(s[j])
    ensures FindIndex(s, p) == Some(i)
  {
    if i > 0 {
      FindIndexFirst(s[1..], p, i - 1);
    }
  }
}
