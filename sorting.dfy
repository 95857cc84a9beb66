/**
 * Python's `list.sort(key=...)`, which the extractor calls three times. The sort is stable: elements
 * with equal keys keep their input order (also with `reverse=True`). It is modelled as an insertion
 * sort parameterised by the key order `le` ("key of a <= key of b").
 */
module Sorting {
  import opened Seqs

  ghost predicate TotalPreorder<T(!new)>(le: (T, T) -> bool) {
    && (forall a, b :: le(a, b) || le(b, a))
    && (forall a, b, c :: le(a, b) && le(b, c) ==> le(a, c))
  }

  ghost predicate SortedBy<T>(s: seq<T>, le: (T, T) -> bool) {
    forall i, j :: 0 <= i < j < |s| ==> le(s[i], s[j])
  }

  /**
   * Inserts `x`, which precedes every element of `s` in the input, in front of the first element
   * whose key is not below its own, so that equal keys keep their input order.
   */
  function Insert<T>(x: T, s: seq<T>, le: (T, T) -> bool): (r: seq<T>)
    ensures multiset(r) == multiset(s) + multiset{x}
    ensures |r| == |s| + 1
  {
    if s == [] || le(x, s[0]) then [x] + s
    else
      assert s == [s[0]] + s[1..];
      [s[0]] + Insert(x, s[1..], le)
  }

  /** The sorted list: a permutation of the input. */
  function Sort<T>(s: seq<T>, le: (T, T) -> bool): (r: seq<T>)
    ensures multiset(r) == multiset(s)
    ensures |r| == |s|
  {
    if s == [] then []
    else
      assert s == [s[0]] + s[1..];
      Insert(s[0], Sort(s[1..], le), le)
  }

  lemma {:induction false} InsertSorted<T(!new)>(x: T, s: seq<T>, le: (T, T) -> bool)
    requires TotalPreorder(le) && SortedBy(s, le)
    ensures SortedBy(Insert(x, s, le), le)
  {
    if s != [] && !le(x, s[0]) {
      var t := s[1..];
      InsertSorted(x, t, le);
      assert Insert(x, s, le) == [s[0]] + Insert(x, t, le);
      InsertAbove(x, s, le);
      PrependSorted(s[0], Insert(x, t, le), le);
    }
  }

  /** When `x` goes past the head of a sorted `s`, the head is below everything after it. */
  lemma InsertAbove<T(!new)>(x: T, s: seq<T>, le: (T, T) -> bool)
    requires TotalPreorder(le) && SortedBy(s, le) && s != [] && !le(x, s[0])
    ensures var rt := Insert(x, s[1..], le); forall k :: 0 <= k < |rt| ==> le(s[0], rt[k])
  {
    var t := s[1..];
    var rt := Insert(x, t, le);
    forall k | 0 <= k < |rt|
      ensures le(s[0], rt[k])
    {
      var y := rt[k];
      assert y in multiset(rt);
      if y != x {
        assert y in multiset(t);
        var m :| 0 <= m < |t| && t[m] == y;
        assert s[m + 1] == y;
      }
    }
  }

  lemma PrependSorted<T>(a: T, t: seq<T>, le: (T, T) -> bool)
    requires SortedBy(t, le) && forall k :: 0 <= k < |t| ==> le(a, t[k])
    ensures SortedBy([a] + t, le)
  {
    var r := [a] + t;
    forall i, j | 0 <= i < j < |r|
      ensures le(r[i], r[j])
    {
      assert r[j] == t[j - 1];
      if i > 0 {
        assert r[i] == t[i - 1];
      }
    }
  }

  /** The sort orders its output by the key order. */
  lemma {:induction false} SortSorted<T(!new)>(s: seq<T>, le: (T, T) -> bool)
    requires TotalPreorder(le)
    ensures SortedBy(Sort(s, le), le)
  {
    if s != [] {
      SortSorted(s[1..], le);
      InsertSorted(s[0], Sort(s[1..], le), le);
    }
  }

  /** The elements of `s` whose key equals the key of `k`, in their order in `s`. */
  function EqualKeys<T>(s: seq<T>, k: T, le: (T, T) -> bool): seq<T> {
    if s == [] then []
    else (if le(s[0], k) && le(k, s[0]) then [s[0]] else []) + EqualKeys(s[1..], k, le)
  }

  lemma {:induction false} InsertEqualKeys<T(!new)>(x: T, s: seq<T>, k: T, le: (T, T) -> bool)
    requires TotalPreorder(le)
    ensures EqualKeys(Insert(x, s, le), k, le) == EqualKeys([x], k, le) + EqualKeys(s, k, le)
  {
    if s == [] || le(x, s[0]) {
      assert Insert(x, s, le) == [x] + s;
      assert ([x] + s)[1..] == s;
    } else {
      InsertEqualKeys(x, s[1..], k, le);
      assert Insert(x, s, le)[1..] == Insert(x, s[1..], le);
      if le(x, k) && le(k, x) {
        // s[0] sorts strictly before x, so it cannot share x's key
        assert !(le(s[0], k) && le(k, s[0]));
      }
    }
  }

  /** Stability: the elements sharing any one key appear in the output in their input order. */
  lemma {:induction false} SortStable<T(!new)>(s: seq<T>, k: T, le: (T, T) -> bool)
    requires TotalPreorder(le)
    ensures EqualKeys(Sort(s, le), k, le) == EqualKeys(s, k, le)
  {
    if s != [] {
      var x, t := s[0], Sort(s[1..], le);
      assert Sort(s, le) == Insert(x, t, le);
      SortStable(s[1..], k, le);
      InsertEqualKeys(x, t, k, le);
      assert [x][1..] == [];
      assert EqualKeys([x], k, le) == if le(x, k) && le(k, x) then [x] else [];
    }
  }

  /** Position `i` holds an element whose key is not above any key in `s`. */
  /** Picking the equal-key elements of a concatenation picks them from each part. */
  lemma {:induction false} EqualKeysConcat<T>(a: seq<T>, b: seq<T>, k: T, le: (T, T) -> bool)
    ensures EqualKeys(a + b, k, le) == EqualKeys(a, k, le) + EqualKeys(b, k, le)
  {
    if a == [] {
      assert a + b == b;
    } else {
      HeadOfConcat(a, b);
      EqualKeysConcat(a[1..], b, k, le);
      ConcatAssociates(if le(a[0], k) && le(k, a[0]) then [a[0]] else [], EqualKeys(a[1..], k, le), EqualKeys(b, k, le));
    }
  }

  /**
   * In a sorted sequence, every element of the first `n` comes no later in the order than any
   * element that occurs more often in the whole than in those `n`.
   */
  lemma SortedPrefixFirst<T>(s: seq<T>, n: nat, le: (T, T) -> bool)
    requires SortedBy(s, le) && n <= |s|
    ensures forall x, y :: y in s[..n] && multiset(s[..n])[x] < multiset(s)[x] ==> le(y, x)
  {
    var head, rest := s[..n], s[n..];
    assert s == head + rest;
    forall x, y | y in head && multiset(head)[x] < multiset(s)[x]
      ensures le(y, x)
    {
      assert x in multiset(rest);
      var j :| 0 <= j < |rest| && rest[j] == x;
      var i :| 0 <= i < n && head[i] == y;
      assert s[i] == y && s[n + j] == x;
    }
  }

  ghost predicate IsLeastAt<T>(s: seq<T>, i: int, le: (T, T) -> bool) {
    0 <= i < |s| && forall j :: 0 <= j < |s| ==> le(s[i], s[j])
  }

  /** Position `i` holds the first such element. */
  ghost predicate IsFirstLeastAt<T>(s: seq<T>, i: int, le: (T, T) -> bool) {
    IsLeastAt(s, i, le) && forall j :: 0 <= j < i ==> !IsLeastAt(s, j, le)
  }

  /** The head of the sorted list is the first element of the input whose key is least. */
  lemma {:induction false} SortHead<T(!new)>(s: seq<T>, le: (T, T) -> bool)
    requires TotalPreorder(le) && s != []
    ensures exists i :: IsFirstLeastAt(s, i, le) && Sort(s, le)[0] == s[i]
  {
    var x, r := s[0], s[1..];
    if r == [] {
      assert IsFirstLeastAt(s, 0, le);
    } else {
      SortHead(r, le);
      var i' :| IsFirstLeastAt(r, i', le) && Sort(r, le)[0] == r[i'];
      assert Sort(s, le) == Insert(x, Sort(r, le), le);
      if le(x, r[i']) {
        FirstIsLeast(s, i', le);
      } else {
        LaterIsLeast(s, i', le);
      }
    }
  }

  lemma FirstIsLeast<T(!new)>(s: seq<T>, i': int, le: (T, T) -> bool)
    requires TotalPreorder(le) && |s| > 1 && IsLeastAt(s[1..], i', le) && le(s[0], s[1..][i'])
    ensures IsFirstLeastAt(s, 0, le)
  {
    forall j | 0 < j < |s|
      ensures le(s[0], s[j])
    {
      assert s[j] == s[1..][j - 1];
    }
  }

  lemma LaterIsLeast<T(!new)>(s: seq<T>, i': int, le: (T, T) -> bool)
    requires TotalPreorder(le) && |s| > 1 && IsFirstLeastAt(s[1..], i', le) && !le(s[0], s[1..][i'])
    ensures IsFirstLeastAt(s, i' + 1, le)
  {
    var r := s[1..];
    forall j | 0 <= j < |s|
      ensures le(s[i' + 1], s[j])
    {
      if j > 0 { assert s[j] == r[j - 1]; }
    }
    forall j | 0 <= j < i' + 1
      ensures !IsLeastAt(s, j, le)
    {
      if j > 0 {
        assert !IsLeastAt(r, j - 1, le);
        var m :| 0 <= m < |r| && !le(r[j - 1], r[m]);
        assert !le(s[j], s[m + 1]);
      } else {
        assert !le(s[0], s[i' + 1]);
      }
    }
  }
}
