/**
 * Generic list operations behind Laravel collections and JavaScript arrays:
 * `filter`, `unique` (first occurrence of each key wins), a stable
 * `sortBy`, and the "subsequence of" relation used to state that a
 * filter keeps the original order.
 */
module Collections {
  import opened Wrappers

  /** `array_filter`/`Collection::filter`/`Array.prototype.filter`. */
  function Filter<T(==)>(s: seq<T>, p: T -> bool): (r: seq<T>)
    ensures |r| <= |s|
    ensures forall i :: 0 <= i < |r| ==> r[i] in s && p(r[i])
    ensures forall i :: 0 <= i < |s| && p(s[i]) ==> s[i] in r
    decreases |s|
  {
    if s == [] then []
    else (if p(s[0]) then [s[0]] else []) + Filter(s[1..], p)
  }

  /** A position at which `x` occurs in `s`. */
  lemma IndexOf<T>(s: seq<T>, x: T) returns (i: int)
    requires x in s
    ensures 0 <= i < |s| && s[i] == x
  {
    i :| 0 <= i < |s| && s[i] == x;
  }

  /** `a` can be obtained from `b` by deleting elements. */
  predicate IsSubseq<T(==)>(a: seq<T>, b: seq<T>)
    decreases |b|
  {
    if a == [] then true
    else if b == [] then false
    else (a[0] == b[0] && IsSubseq(a[1..], b[1..])) || IsSubseq(a, b[1..])
  }

  /** Filtering keeps the surviving elements in their original order. */
  lemma {:induction false} FilterIsSubseq<T>(s: seq<T>, p: T -> bool)
    ensures IsSubseq(Filter(s, p), s)
    decreases |s|
  {
    if s != [] {
      FilterIsSubseq(s[1..], p);
      if p(s[0]) {
        assert Filter(s, p) == [s[0]] + Filter(s[1..], p);
        assert Filter(s, p)[1..] == Filter(s[1..], p);
      } else {
        assert Filter(s, p) == Filter(s[1..], p);
      }
    }
  }

  /** Every element of a subsequence is an element of the whole. */
  lemma {:induction false} SubseqMembers<T>(a: seq<T>, b: seq<T>)
    requires IsSubseq(a, b)
    ensures forall x :: x in a ==> x in b
    decreases |b|
  {
    if a != [] {
      if a[0] == b[0] && IsSubseq(a[1..], b[1..]) {
        SubseqMembers(a[1..], b[1..]);
        assert forall x :: x in a ==> x == a[0] || x in a[1..];
      } else {
        SubseqMembers(a, b[1..]);
      }
    }
  }

  // ---------------------------------------------------------------------
  // unique by key
  // ---------------------------------------------------------------------

  /** No two elements of `s` share a key. */
  predicate DistinctBy<T, K(==)>(s: seq<T>, key: T -> K) {
    forall i, j :: 0 <= i < j < |s| ==> key(s[i]) != key(s[j])
  }

  function KeySet<T, K>(s: seq<T>, key: T -> K): set<K> {
    set i | 0 <= i < |s| :: key(s[i])
  }

  /** The first element of `s` whose key is `k`, if any. */
  function FirstBy<T, K(==)>(s: seq<T>, key: T -> K, k: K): (r: Option<T>)
    ensures r.Some? ==> r.value in s && key(r.value) == k
    ensures r.None? <==> k !in KeySet(s, key)
    decreases |s|
  {
    if s == [] then None
    else
      var f := FirstBy(s[..|s| - 1], key, k);
      assert forall i :: 0 <= i < |s| - 1 ==> s[..|s| - 1][i] == s[i];
      if f.Some? then f
      else if key(s[|s| - 1]) == k then Some(s[|s| - 1])
      else None
  }

  /** `FirstBy` finds the element at the earliest position holding `k`. */
  lemma {:induction false} FirstByIsEarliest<T, K>(s: seq<T>, key: T -> K, k: K, j: int)
    requires 0 <= j < |s| && key(s[j]) == k
    ensures FirstBy(s, key, k).Some?
    ensures (forall i :: 0 <= i < j ==> key(s[i]) != k) ==> FirstBy(s, key, k) == Some(s[j])
    decreases |s|
  {
    if j < |s| - 1 {
      var init := s[..|s| - 1];
      assert init[j] == s[j];
      FirstByIsEarliest(init, key, k, j);
      if forall i :: 0 <= i < j ==> key(s[i]) != k {
        assert forall i :: 0 <= i < j ==> init[i] == s[i];
      }
    } else {
      if forall i :: 0 <= i < j ==> key(s[i]) != k {
        assert k !in KeySet(s[..|s| - 1], key);
      }
    }
  }

  /**
   * `Collection::unique($key)`: keeps, for each key, the first element
   * carrying it, in the order of the input.
   */
  function UniqueBy<T, K(==)>(s: seq<T>, key: T -> K): (r: seq<T>)
    ensures |r| <= |s|
    decreases |s|
  {
    if s == [] then []
    else
      var r := UniqueBy(s[..|s| - 1], key);
      var x := s[|s| - 1];
      if key(x) in KeySet(r, key) then r else r + [x]
  }

  /** What `UniqueBy` keeps: one element per key, the first one, in order. */
  ghost predicate IsUniqueOf<T, K>(r: seq<T>, s: seq<T>, key: T -> K) {
    && DistinctBy(r, key)
    && KeySet(r, key) == KeySet(s, key)
    && (forall i :: 0 <= i < |r| ==> FirstBy(s, key, key(r[i])) == Some(r[i]))
    && IsSubseq(r, s)
  }

  /**
   * `UniqueBy` keeps exactly one element per key, namely the first one,
   * and keeps the input order.
   */
  lemma {:induction false} UniqueByFirstWins<T, K>(s: seq<T>, key: T -> K)
    ensures IsUniqueOf(UniqueBy(s, key), s, key)
    decreases |s|
  {
    if s != [] {
      var init := s[..|s| - 1];
      UniqueByFirstWins(init, key);
      assert init + [s[|s| - 1]] == s;
      UniqueByStep(init, s[|s| - 1], UniqueBy(init, key), key);
    }
  }

  /** Every element of `s` has a representative with its key in `UniqueBy(s, key)`, itself an element of `s`. */
  lemma UniqueByCovers<T, K>(s: seq<T>, key: T -> K, x: T)
    requires x in s
    ensures exists y :: y in UniqueBy(s, key) && y in s && key(y) == key(x)
  {
    var r := UniqueBy(s, key);
    UniqueByFirstWins(s, key);
    SubseqMembers(r, s);
    var i :| 0 <= i < |s| && s[i] == x;
    assert key(x) in KeySet(s, key);
    var j :| 0 <= j < |r| && key(r[j]) == key(x);
    assert r[j] in r;
  }

  /** Sorting keeps exactly the same elements. */
  lemma SortByMembers<T>(s: seq<T>, le: (T, T) -> bool)
    ensures forall x :: x in SortBy(s, le) <==> x in s
  {
    var r := SortBy(s, le);
    assert multiset(r) == multiset(s);
    forall x
      ensures x in r <==> x in s
    {
      assert x in r <==> x in multiset(r);
      assert x in s <==> x in multiset(s);
    }
  }

  /** A list has pairwise distinct keys exactly when it has as many keys as elements. */
  lemma {:induction false} DistinctByCount<T, K>(s: seq<T>, key: T -> K)
    ensures |KeySet(s, key)| <= |s|
    ensures DistinctBy(s, key) <==> |KeySet(s, key)| == |s|
    decreases |s|
  {
    if s != [] {
      var init := s[..|s| - 1];
      var x := s[|s| - 1];
      DistinctByCount(init, key);
      assert init + [x] == s;
      KeySetAppend(init, x, key);
      if key(x) in KeySet(init, key) {
        assert KeySet(s, key) == KeySet(init, key);
        var i :| 0 <= i < |init| && key(init[i]) == key(x);
        assert key(s[i]) == key(s[|s| - 1]);
      } else {
        assert |KeySet(s, key)| == |KeySet(init, key)| + 1;
        if DistinctBy(s, key) {
          assert DistinctBy(init, key) by {
            forall i, j | 0 <= i < j < |init|
              ensures key(init[i]) != key(init[j])
            {
              assert init[i] == s[i] && init[j] == s[j];
            }
          }
        }
        if |KeySet(s, key)| == |s| {
          assert DistinctBy(init, key);
          forall i, j | 0 <= i < j < |s|
            ensures key(s[i]) != key(s[j])
          {
            assert s[i] == init[i];
            if j < |init| {
              assert s[j] == init[j];
            } else {
              assert key(init[i]) in KeySet(init, key);
            }
          }
        }
      }
    }
  }

  /** Sorting keeps keys pairwise distinct. */
  lemma SortByKeepsDistinct<T, K>(s: seq<T>, le: (T, T) -> bool, key: T -> K)
    requires DistinctBy(s, key)
    ensures DistinctBy(SortBy(s, le), key)
  {
    var r := SortBy(s, le);
    SortByMembers(s, le);
    assert KeySet(r, key) == KeySet(s, key) by {
      forall k | k in KeySet(r, key)
        ensures k in KeySet(s, key)
      {
        var i :| 0 <= i < |r| && key(r[i]) == k;
        assert r[i] in s;
        var j :| 0 <= j < |s| && s[j] == r[i];
      }
      forall k | k in KeySet(s, key)
        ensures k in KeySet(r, key)
      {
        var i :| 0 <= i < |s| && key(s[i]) == k;
        assert s[i] in r;
        var j :| 0 <= j < |r| && r[j] == s[i];
      }
    }
    DistinctByCount(s, key);
    DistinctByCount(r, key);
  }

  /** A non-empty sequence is its front followed by its last element. */
  lemma FrontAndLast<T>(s: seq<T>)
    requires s != []
    ensures s[..|s| - 1] + [s[|s| - 1]] == s
  {
  }

  /** The head and tail of a concatenation with a non-empty front. */
  lemma ConsConcat<T>(a: seq<T>, b: seq<T>)
    requires a != []
    ensures (a + b)[0] == a[0] && (a + b)[1..] == a[1..] + b
  {
  }

  /** A prefix one longer is the prefix followed by the next element. */
  lemma TakeNext<T>(s: seq<T>, i: int)
    requires 0 <= i < |s|
    ensures s[..i + 1] == s[..i] + [s[i]]
  {
  }

  /** `FirstBy` read from the front, one element appended at the back. */
  lemma FirstByConsStep<T, K>(x: T, init: seq<T>, last: T, key: T -> K, k: K)
    requires FirstBy([x] + init, key, k) == if key(x) == k then Some(x) else FirstBy(init, key, k)
    ensures FirstBy([x] + init + [last], key, k) == if key(x) == k then Some(x) else FirstBy(init + [last], key, k)
  {
    FirstByAppend([x] + init, last, key, k);
    FirstByAppend(init, last, key, k);
  }

  /** `FirstBy` read from the front: the head if it has the key, else the first in the tail. */
  lemma {:induction false} FirstByCons<T, K>(x: T, s: seq<T>, key: T -> K, k: K)
    ensures FirstBy([x] + s, key, k) == if key(x) == k then Some(x) else FirstBy(s, key, k)
    decreases |s|
  {
    if s != [] {
      var init := s[..|s| - 1];
      FirstByCons(x, init, key, k);
      FirstByConsStep(x, init, s[|s| - 1], key, k);
      FrontAndLast(s);
      assert [x] + init + [s[|s| - 1]] == [x] + s;
    } else {
      assert [x] + s == [] + [x];
      FirstByAppend([], x, key, k);
    }
  }

  lemma KeySetAppend<T, K>(s: seq<T>, x: T, key: T -> K)
    ensures KeySet(s + [x], key) == KeySet(s, key) + {key(x)}
  {
    var s' := s + [x];
    assert forall i :: 0 <= i < |s| ==> s'[i] == s[i];
    assert s'[|s|] == x;
  }

  lemma FirstByAppend<T, K>(init: seq<T>, x: T, key: T -> K, k: K)
    ensures FirstBy(init + [x], key, k) ==
      if FirstBy(init, key, k).Some? then FirstBy(init, key, k)
      else if key(x) == k then Some(x) else None
  {
    var s := init + [x];
    assert s[..|s| - 1] == init;
  }

  /** The inductive step of `UniqueByFirstWins`. */
  lemma UniqueByStep<T, K>(init: seq<T>, x: T, r: seq<T>, key: T -> K)
    requires IsUniqueOf(r, init, key)
    ensures IsUniqueOf(if key(x) in KeySet(r, key) then r else r + [x], init + [x], key)
  {
    KeySetAppend(init, x, key);
    SubseqAppend(r, init, x);
    FirstByKept(init, x, r, key);
    if key(x) !in KeySet(r, key) {
      KeySetAppend(r, x, key);
      DistinctAppend(r, x, key);
      FirstByKept(init, x, r, key);
      FirstByAppend(init, x, key, key(x));
      FirstByKeptNew(init, x, r, key);
      SubseqAppendBoth(r, init, x);
    }
  }

  lemma FirstByKept<T, K>(init: seq<T>, x: T, r: seq<T>, key: T -> K)
    requires forall i :: 0 <= i < |r| ==> FirstBy(init, key, key(r[i])) == Some(r[i])
    ensures forall i :: 0 <= i < |r| ==> FirstBy(init + [x], key, key(r[i])) == Some(r[i])
  {
    forall i | 0 <= i < |r|
      ensures FirstBy(init + [x], key, key(r[i])) == Some(r[i])
    {
      FirstByAppend(init, x, key, key(r[i]));
    }
  }

  lemma FirstByKeptNew<T, K>(init: seq<T>, x: T, r: seq<T>, key: T -> K)
    requires forall i :: 0 <= i < |r| ==> FirstBy(init + [x], key, key(r[i])) == Some(r[i])
    requires FirstBy(init + [x], key, key(x)) == Some(x)
    ensures forall i :: 0 <= i < |r + [x]| ==> FirstBy(init + [x], key, key((r + [x])[i])) == Some((r + [x])[i])
  {
    forall i | 0 <= i < |r + [x]|
      ensures FirstBy(init + [x], key, key((r + [x])[i])) == Some((r + [x])[i])
    {
      if i < |r| {
        assert (r + [x])[i] == r[i];
      }
    }
  }

  lemma DistinctAppend<T, K>(r: seq<T>, x: T, key: T -> K)
    requires DistinctBy(r, key) && key(x) !in KeySet(r, key)
    ensures DistinctBy(r + [x], key)
  {
    var r' := r + [x];
    forall i, j | 0 <= i < j < |r'|
      ensures key(r'[i]) != key(r'[j])
    {
      assert r'[i] == r[i];
      if j < |r| {
        assert r'[j] == r[j];
      } else {
        assert key(r[i]) in KeySet(r, key);
      }
    }
  }

  lemma {:induction false} SubseqAppend<T>(a: seq<T>, b: seq<T>, x: T)
    requires IsSubseq(a, b)
    ensures IsSubseq(a, b + [x])
    decreases |b|
  {
    if a != [] && b != [] {
      assert (b + [x])[1..] == b[1..] + [x];
      if a[0] == b[0] && IsSubseq(a[1..], b[1..]) {
        SubseqAppend(a[1..], b[1..], x);
      } else {
        SubseqAppend(a, b[1..], x);
      }
    }
  }

  lemma {:induction false} SubseqAppendBoth<T>(a: seq<T>, b: seq<T>, x: T)
    requires IsSubseq(a, b)
    ensures IsSubseq(a + [x], b + [x])
    decreases |b|
  {
    if a == [] {
      assert a + [x] == [x];
      SubseqSingleton(b, x);
    } else {
      assert b != [];
      assert (a + [x])[1..] == a[1..] + [x];
      assert (b + [x])[1..] == b[1..] + [x];
      if a[0] == b[0] && IsSubseq(a[1..], b[1..]) {
        SubseqAppendBoth(a[1..], b[1..], x);
      } else {
        SubseqAppendBoth(a, b[1..], x);
      }
    }
  }

  lemma {:induction false} SubseqSingleton<T>(b: seq<T>, x: T)
    ensures IsSubseq([x], b + [x])
    decreases |b|
  {
    if b != [] {
      assert (b + [x])[1..] == b[1..] + [x];
      SubseqSingleton(b[1..], x);
    } else {
      assert [x][1..] == [];
    }
  }

  /** Every list is a subsequence of itself. */
  lemma {:induction false} SubseqRefl<T>(a: seq<T>)
    ensures IsSubseq(a, a)
    decreases |a|
  {
    if a != [] {
      SubseqRefl(a[1..]);
    }
  }

  /** Elements put in front of the whole keep a subsequence a subsequence. */
  lemma {:induction false} SubseqDropFront<T>(a: seq<T>, c: seq<T>, b: seq<T>)
    requires IsSubseq(a, b)
    ensures IsSubseq(a, c + b)
    decreases |c|
  {
    if c != [] && a != [] {
      SubseqDropFront(a, c[1..], b);
      assert (c + b)[1..] == c[1..] + b;
      assert IsSubseq(a, (c + b)[1..]);
    } else if c != [] {
      assert a == [];
    } else {
      assert c + b == b;
    }
  }

  /** Subsequences of two parts concatenate to a subsequence of the concatenation. */
  lemma {:induction false} SubseqConcat<T>(a1: seq<T>, b1: seq<T>, a2: seq<T>, b2: seq<T>)
    requires IsSubseq(a1, b1) && IsSubseq(a2, b2)
    ensures IsSubseq(a1 + a2, b1 + b2)
    decreases |b1|
  {
    if a1 == [] {
      SubseqDropFront(a2, b1, b2);
      assert a1 + a2 == a2;
    } else {
      assert (b1 + b2)[1..] == b1[1..] + b2;
      if a1[0] == b1[0] && IsSubseq(a1[1..], b1[1..]) {
        SubseqConcat(a1[1..], b1[1..], a2, b2);
        assert (a1 + a2)[1..] == a1[1..] + a2;
      } else {
        SubseqConcat(a1, b1[1..], a2, b2);
      }
    }
  }

  /** A subsequence of a subsequence is a subsequence: filters compose. */
  lemma {:induction false} SubseqTrans<T>(a: seq<T>, b: seq<T>, c: seq<T>)
    requires IsSubseq(a, b) && IsSubseq(b, c)
    ensures IsSubseq(a, c)
    decreases |c|
  {
    if a != [] {
      if b[0] == c[0] && IsSubseq(b[1..], c[1..]) {
        if a[0] == b[0] && IsSubseq(a[1..], b[1..]) {
          SubseqTrans(a[1..], b[1..], c[1..]);
        } else {
          SubseqTrans(a, b[1..], c[1..]);
        }
      } else {
        SubseqTrans(a, b, c[1..]);
      }
    }
  }

  /** A subsequence is no longer than the whole. */
  lemma {:induction false} SubseqLength<T>(a: seq<T>, b: seq<T>)
    requires IsSubseq(a, b)
    ensures |a| <= |b|
    decreases |b|
  {
    if a != [] {
      if a[0] == b[0] && IsSubseq(a[1..], b[1..]) {
        SubseqLength(a[1..], b[1..]);
      } else {
        SubseqLength(a, b[1..]);
      }
    }
  }

  /** A subsequence of a sorted list is sorted. */
  lemma {:induction false} SubseqSorted<T>(a: seq<T>, b: seq<T>, le: (T, T) -> bool)
    requires IsSubseq(a, b) && SortedBy(b, le)
    ensures SortedBy(a, le)
    decreases |b|
  {
    if a != [] {
      assert SortedBy(b[1..], le) by {
        forall i, j | 0 <= i < j < |b[1..]| ensures le(b[1..][i], b[1..][j]) {
          assert b[1..][i] == b[i + 1] && b[1..][j] == b[j + 1];
        }
      }
      if a[0] == b[0] && IsSubseq(a[1..], b[1..]) {
        SubseqSorted(a[1..], b[1..], le);
        SubseqMembers(a[1..], b[1..]);
        forall i, j | 0 <= i < j < |a| ensures le(a[i], a[j]) {
          if i == 0 {
            assert a[j] == a[1..][j - 1];
            assert a[j] in b[1..];
            var k :| 0 <= k < |b[1..]| && b[1..][k] == a[j];
            assert b[k + 1] == a[j];
          } else {
            assert a[i] == a[1..][i - 1] && a[j] == a[1..][j - 1];
          }
        }
      } else {
        SubseqSorted(a, b[1..], le);
      }
    }
  }

  // ---------------------------------------------------------------------
  // stable sort
  // ---------------------------------------------------------------------

  /** Moving one element from the to-do part of a partition to the done part. */
  lemma MoveOne<T>(todo: set<T>, done: set<T>, all: set<T>, x: T)
    requires todo + done == all && todo !! done && x in todo
    ensures (todo - {x}) + (done + {x}) == all && (todo - {x}) !! (done + {x})
    ensures |todo - {x}| < |todo|
  {
  }

  /** A proper subset has fewer elements. */
  lemma ProperSubsetCard<T>(a: set<T>, b: set<T>)
    requires a < b
    ensures |a| < |b|
  {
    assert b == a + (b - a);
    assert b - a != {};
  }

  lemma CardAddOne<T>(a: set<T>, x: T)
    requires x !in a
    ensures |a + {x}| == |a| + 1
  {
  }

  predicate SortedBy<T>(s: seq<T>, le: (T, T) -> bool) {
    forall i, j :: 0 <= i < j < |s| ==> le(s[i], s[j])
  }

  ghost predicate IsTotal<T(!new)>(le: (T, T) -> bool) {
    forall a, b :: le(a, b) || le(b, a)
  }

  ghost predicate IsTransitive<T(!new)>(le: (T, T) -> bool) {
    forall a, b, c :: le(a, b) && le(b, c) ==> le(a, c)
  }

  /** Inserts `x` before the first element it is strictly below. */
  function Insert<T>(x: T, s: seq<T>, le: (T, T) -> bool): (r: seq<T>)
    ensures |r| == |s| + 1
    ensures multiset(r) == multiset(s) + multiset{x}
    decreases |s|
  {
    if s == [] then [x]
    else if le(x, s[0]) && !le(s[0], x) then [x] + s
    else
      assert s == [s[0]] + s[1..];
      [s[0]] + Insert(x, s[1..], le)
  }

  /**
   * `Collection::sortBy`: an insertion sort. Each new element is inserted
   * after every element it does not strictly precede, which makes it
   * stable (`SortByStable`).
   */
  function SortBy<T>(s: seq<T>, le: (T, T) -> bool): (r: seq<T>)
    ensures |r| == |s|
    ensures multiset(r) == multiset(s)
    decreases |s|
  {
    if s == [] then []
    else
      var r := Insert(s[|s| - 1], SortBy(s[..|s| - 1], le), le);
      assert s[..|s| - 1] + [s[|s| - 1]] == s;
      r
  }

  lemma {:induction false} InsertSorted<T(!new)>(x: T, s: seq<T>, le: (T, T) -> bool)
    requires IsTotal(le) && IsTransitive(le)
    requires SortedBy(s, le)
    ensures SortedBy(Insert(x, s, le), le)
    decreases |s|
  {
    if s != [] && !(le(x, s[0]) && !le(s[0], x)) {
      InsertSorted(x, s[1..], le);
      var r := Insert(x, s, le);
      var t := Insert(x, s[1..], le);
      assert r == [s[0]] + t;
      assert le(s[0], x);
      assert multiset(t) == multiset(s[1..]) + multiset{x};
      forall j | 0 < j < |r|
        ensures le(s[0], r[j])
      {
        assert r[j] == t[j - 1];
        assert r[j] in multiset(t);
        assert r[j] == x || r[j] in multiset(s[1..]);
        if r[j] != x {
          var k :| 0 <= k < |s[1..]| && s[1..][k] == r[j];
          assert s[1 + k] == r[j];
        }
      }
    }
  }

  /** Filtering a concatenation filters each part. */
  lemma {:induction false} FilterAppend<T>(a: seq<T>, b: seq<T>, p: T -> bool)
    ensures Filter(a + b, p) == Filter(a, p) + Filter(b, p)
    decreases |a|
  {
    if a != [] {
      FilterAppend(a[1..], b, p);
      assert (a + b)[1..] == a[1..] + b;
    } else {
      assert a + b == b;
    }
  }

  /** Filtering one element. */
  lemma FilterSingle<T>(x: T, p: T -> bool)
    ensures Filter([x], p) == if p(x) then [x] else []
  {
    assert [x][1..] == [];
  }

  /** Nothing survives a filter no element passes. */
  lemma {:induction false} FilterNone<T>(s: seq<T>, p: T -> bool)
    requires forall k :: 0 <= k < |s| ==> !p(s[k])
    ensures Filter(s, p) == []
    decreases |s|
  {
    if s != [] {
      FilterNone(s[1..], p);
    }
  }

  /** The test "compares equal to `c`" under `le`. */
  function TiesWith<T>(le: (T, T) -> bool, c: T): T -> bool {
    (y: T) => le(c, y) && le(y, c)
  }

  /** The tail of a sorted sequence is sorted. */
  lemma SortedTail<T>(s: seq<T>, le: (T, T) -> bool)
    requires s != [] && SortedBy(s, le)
    ensures SortedBy(s[1..], le)
  {
    forall i, j | 0 <= i < j < |s[1..]| ensures le(s[1..][i], s[1..][j]) {
      assert s[1..][i] == s[i + 1] && s[1..][j] == s[j + 1];
    }
  }

  /** When `x` is strictly below the head of sorted `s`, nothing in `s` ties with `x`. */
  lemma NoTiesAfter<T(!new)>(x: T, s: seq<T>, le: (T, T) -> bool, c: T)
    requires IsTransitive(le)
    requires SortedBy(s, le) && s != [] && le(x, s[0]) && !le(s[0], x)
    requires TiesWith(le, c)(x)
    ensures Filter(s, TiesWith(le, c)) == []
  {
    var p := TiesWith(le, c);
    forall k | 0 <= k < |s| ensures !p(s[k]) {
      if k > 0 {
        assert le(s[0], s[k]);
      }
    }
    FilterNone(s, p);
  }

  /** `InsertTies` when `x` goes to the front. */
  lemma InsertTiesFront<T(!new)>(x: T, s: seq<T>, le: (T, T) -> bool, c: T)
    requires IsTransitive(le) && SortedBy(s, le)
    requires s != [] && le(x, s[0]) && !le(s[0], x)
    ensures Filter(Insert(x, s, le), TiesWith(le, c)) == Filter(s, TiesWith(le, c)) + Filter([x], TiesWith(le, c))
  {
    var p := TiesWith(le, c);
    FilterSingle(x, p);
    assert Insert(x, s, le) == [x] + s;
    FilterAppend([x], s, p);
    if p(x) {
      NoTiesAfter(x, s, le, c);
    }
  }

  /** `InsertTies` when `x` goes past the head, from the same fact about the tail. */
  lemma InsertTiesStep<T>(x: T, s: seq<T>, le: (T, T) -> bool, c: T)
    requires s != [] && !(le(x, s[0]) && !le(s[0], x))
    requires Filter(Insert(x, s[1..], le), TiesWith(le, c)) == Filter(s[1..], TiesWith(le, c)) + Filter([x], TiesWith(le, c))
    ensures Filter(Insert(x, s, le), TiesWith(le, c)) == Filter(s, TiesWith(le, c)) + Filter([x], TiesWith(le, c))
  {
    var p := TiesWith(le, c);
    var rest := Insert(x, s[1..], le);
    assert Insert(x, s, le) == [s[0]] + rest;
    FilterAppend([s[0]], rest, p);
    FrontAndTail(s);
    FilterAppend([s[0]], s[1..], p);
    RegroupConcat(Filter(Insert(x, s, le), p), Filter(s, p), Filter([s[0]], p), Filter(s[1..], p), Filter([x], p));
  }

  /** A non-empty sequence is its head followed by its tail. */
  lemma FrontAndTail<T>(s: seq<T>)
    requires s != []
    ensures [s[0]] + s[1..] == s
  {
  }

  /** The head and tail of a concatenation with a non-empty front. */
  lemma HeadTailConcat<T>(a: seq<T>, b: seq<T>)
    requires a != []
    ensures (a + b)[0] == a[0] && (a + b)[1..] == a[1..] + b
  {
  }

  /** Regrouping a three-part concatenation. */
  lemma RegroupConcat<T>(whole: seq<T>, front: seq<T>, a: seq<T>, b: seq<T>, c: seq<T>)
    requires whole == a + (b + c) && front == a + b
    ensures whole == front + c
  {
  }

  /** Inserting `x` puts it after every element of `s` that compares equal to it. */
  lemma {:induction false} InsertTies<T(!new)>(x: T, s: seq<T>, le: (T, T) -> bool, c: T)
    requires IsTotal(le) && IsTransitive(le)
    requires SortedBy(s, le)
    ensures Filter(Insert(x, s, le), TiesWith(le, c)) == Filter(s, TiesWith(le, c)) + Filter([x], TiesWith(le, c))
    decreases |s|
  {
    if s == [] {
      assert Insert(x, s, le) == [x];
      assert Filter(s, TiesWith(le, c)) == [];
    } else if le(x, s[0]) && !le(s[0], x) {
      InsertTiesFront(x, s, le, c);
    } else {
      SortedTail(s, le);
      InsertTies(x, s[1..], le, c);
      InsertTiesStep(x, s, le, c);
    }
  }

  /**
   * `SortBy` is stable: for any `c`, the elements comparing equal to `c`
   * come out in the order they went in.
   */
  lemma {:induction false} SortByStable<T(!new)>(s: seq<T>, le: (T, T) -> bool, c: T)
    requires IsTotal(le) && IsTransitive(le)
    ensures Filter(SortBy(s, le), TiesWith(le, c)) == Filter(s, TiesWith(le, c))
    decreases |s|
  {
    if s != [] {
      var front := s[..|s| - 1];
      SortByStable(front, le, c);
      SortBySorted(front, le);
      InsertTies(s[|s| - 1], SortBy(front, le), le, c);
      FilterAppend(front, [s[|s| - 1]], TiesWith(le, c));
      FrontAndLast(s);
    }
  }

  /** The result of `SortBy` is ordered by `le`. */
  lemma {:induction false} SortBySorted<T(!new)>(s: seq<T>, le: (T, T) -> bool)
    requires IsTotal(le) && IsTransitive(le)
    ensures SortedBy(SortBy(s, le), le)
    decreases |s|
  {
    if s != [] {
      SortBySorted(s[..|s| - 1], le);
      InsertSorted(s[|s| - 1], SortBy(s[..|s| - 1], le), le);
    }
  }
}
