/**
 * The query operators the controllers compose, over an in-memory sequence of rows:
 * FirstOrDefault (as the index of the first match), Where, Skip, Take and a stable
 * OrderBy on an integer key.
 */
module Linq {
  import opened Wrappers

  /** Position of the first element satisfying `p`, the row FirstOrDefault returns; None for null. */
  function FirstIndex<T>(s: seq<T>, p: T -> bool): (r: Option<nat>)
    ensures r.Some? ==> r.value < |s| && p(s[r.value])
    ensures r.Some? ==> forall j :: 0 <= j < r.value ==> !p(s[j])
    ensures r.None? <==> forall j :: 0 <= j < |s| ==> !p(s[j])
  {
    if |s| == 0 then None
    else if p(s[0]) then Some(0)
    else match FirstIndex(s[1..], p)
      case None => None
      case Some(k) => Some(k + 1)
  }

  /**
   * The elements satisfying `p`, in their original order: no element more often than in
   * `s`, only elements satisfying `p`, and each of those exactly as often as in `s`.
   */
  function Where<T>(s: seq<T>, p: T -> bool): (r: seq<T>)
    ensures forall i :: 0 <= i < |r| ==> p(r[i]) && multiset(r)[r[i]] <= multiset(s)[r[i]]
    ensures forall i :: 0 <= i < |s| && p(s[i]) ==> multiset(r)[s[i]] == multiset(s)[s[i]]
  {
    if |s| == 0 then []
    else
      var w := Where(s[1..], p);
      WhereStep(s, w, p);
      if p(s[0]) then [s[0]] + w else w
  }

  /** One step of Where: prepending the head, when it satisfies `p`, keeps the contract. */
  lemma WhereStep<T>(s: seq<T>, w: seq<T>, p: T -> bool)
    requires |s| > 0
    requires forall i :: 0 <= i < |w| ==> p(w[i]) && multiset(w)[w[i]] <= multiset(s[1..])[w[i]]
    requires forall i :: 0 <= i < |s[1..]| && p(s[1..][i]) ==> multiset(w)[s[1..][i]] == multiset(s[1..])[s[1..][i]]
    ensures var r := if p(s[0]) then [s[0]] + w else w;
      && (forall i :: 0 <= i < |r| ==> p(r[i]) && multiset(r)[r[i]] <= multiset(s)[r[i]])
      && forall i :: 0 <= i < |s| && p(s[i]) ==> multiset(r)[s[i]] == multiset(s)[s[i]]
  {
    var rest := s[1..];
    var r := if p(s[0]) then [s[0]] + w else w;
    assert s == [s[0]] + rest;
    assert multiset(s) == multiset{s[0]} + multiset(rest);
    forall i | 0 <= i < |r| ensures p(r[i]) && multiset(r)[r[i]] <= multiset(s)[r[i]] {
      if p(s[0]) && i > 0 { assert r[i] == w[i - 1]; }
      if !p(s[0]) { assert r[i] == w[i]; }
    }
    forall i | 0 <= i < |s| && p(s[i]) ensures multiset(r)[s[i]] == multiset(s)[s[i]] {
      if i > 0 {
        assert s[i] == rest[i - 1];
      } else if s[0] !in rest {
        assert multiset(rest)[s[0]] == 0;
      } else {
        var j :| 0 <= j < |rest| && rest[j] == s[0];
      }
    }
  }

  /** Where on a sequence with a known head. */
  lemma WhereCons<T>(x: T, t: seq<T>, p: T -> bool)
    ensures Where([x] + t, p) == (if p(x) then [x] else []) + Where(t, p)
  {
    assert ([x] + t)[1..] == t;
  }

  lemma ConcatAssoc<T>(a: seq<T>, b: seq<T>, c: seq<T>)
    ensures a + (b + c) == (a + b) + c
  {
  }

  /** The inductive step of WhereAppend: one more element in front of the first part. */
  lemma WhereAppendStep<T>(x: T, t: seq<T>, b: seq<T>, p: T -> bool)
    requires Where(t + b, p) == Where(t, p) + Where(b, p)
    ensures Where([x] + t + b, p) == Where([x] + t, p) + Where(b, p)
  {
    var head := if p(x) then [x] else [];
    assert [x] + t + b == [x] + (t + b);
    WhereCons(x, t, p);
    WhereCons(x, t + b, p);
    assert Where([x] + t, p) == head + Where(t, p);
    assert Where([x] + (t + b), p) == head + (Where(t, p) + Where(b, p));
    ConcatAssoc(head, Where(t, p), Where(b, p));
  }

  /** Where preserves order: filtering a concatenation concatenates the filtered parts. */
  lemma {:induction false} WhereAppend<T>(a: seq<T>, b: seq<T>, p: T -> bool)
    ensures Where(a + b, p) == Where(a, p) + Where(b, p)
  {
    if |a| == 0 {
      assert a + b == b;
    } else {
      var x, t := a[0], a[1..];
      assert a == [x] + t;
      WhereAppend(t, b, p);
      WhereAppendStep(x, t, b, p);
    }
  }

  /** Skip(n): drops the first n elements; a count at or below zero drops nothing. */
  function Skip<T>(s: seq<T>, n: int): (r: seq<T>)
    ensures |r| == if n <= 0 then |s| else if n >= |s| then 0 else |s| - n
    ensures forall i :: 0 <= i < |r| ==> r[i] == s[i + (if n <= 0 then 0 else n)]
  {
    if n <= 0 then s else if n >= |s| then [] else s[n..]
  }

  /** Take(n): keeps the first n elements; a count at or below zero keeps nothing. */
  function Take<T>(s: seq<T>, n: int): (r: seq<T>)
    ensures |r| == if n <= 0 then 0 else if n >= |s| then |s| else n
    ensures r <= s
  {
    if n <= 0 then [] else if n >= |s| then s else s[..n]
  }

  ghost predicate SortedBy<T>(s: seq<T>, key: T -> int) {
    forall i, j :: 0 <= i < j < |s| ==> key(s[i]) <= key(s[j])
  }

  /** Places `x` before the first element whose key is not smaller, so equal keys keep their order. */
  function InsertByKey<T>(x: T, s: seq<T>, key: T -> int): (r: seq<T>)
    ensures |r| == |s| + 1
    ensures multiset(r) == multiset(s) + multiset{x}
  {
    if |s| == 0 || key(x) <= key(s[0]) then [x] + s
    else
      assert s == [s[0]] + s[1..];
      [s[0]] + InsertByKey(x, s[1..], key)
  }

  /** OrderBy(key): a stable sort, written as insertion sort. */
  function OrderBy<T>(s: seq<T>, key: T -> int): (r: seq<T>)
    ensures |r| == |s|
    ensures multiset(r) == multiset(s)
  {
    if |s| == 0 then []
    else
      assert s == [s[0]] + s[1..];
      InsertByKey(s[0], OrderBy(s[1..], key), key)
  }

  lemma SortedTail<T>(s: seq<T>, key: T -> int)
    requires SortedBy(s, key) && |s| > 0
    ensures SortedBy(s[1..], key)
  {
    forall i, j | 0 <= i < j < |s[1..]| ensures key(s[1..][i]) <= key(s[1..][j]) {
      assert s[1..][i] == s[i + 1] && s[1..][j] == s[j + 1];
    }
  }

  lemma SortedCons<T>(x: T, s: seq<T>, key: T -> int)
    requires SortedBy(s, key)
    requires forall k :: 0 <= k < |s| ==> key(x) <= key(s[k])
    ensures SortedBy([x] + s, key)
  {
    var t := [x] + s;
    forall i, j | 0 <= i < j < |t| ensures key(t[i]) <= key(t[j]) {
      assert t[j] == s[j - 1];
      if i > 0 { assert t[i] == s[i - 1]; }
    }
  }

  /** A lower bound on the keys of `s` holds for any sequence drawn from `s`. */
  lemma BoundedMembers<T>(b: int, s: seq<T>, t: seq<T>, key: T -> int)
    requires forall i :: 0 <= i < |s| ==> b <= key(s[i])
    requires forall k :: 0 <= k < |t| ==> multiset(t)[t[k]] <= multiset(s)[t[k]]
    ensures forall k :: 0 <= k < |t| ==> b <= key(t[k])
  {
    forall k | 0 <= k < |t| ensures b <= key(t[k]) {
      assert t[k] in multiset(t);
      var m :| 0 <= m < |s| && s[m] == t[k];
    }
  }

  /** The same, for a sequence holding the elements of `s` and one more element above the bound. */
  lemma BoundedInsert<T>(b: int, x: T, s: seq<T>, t: seq<T>, key: T -> int)
    requires forall i :: 0 <= i < |s| ==> b <= key(s[i])
    requires b <= key(x) && multiset(t) == multiset(s) + multiset{x}
    ensures forall k :: 0 <= k < |t| ==> b <= key(t[k])
  {
    forall k | 0 <= k < |t| ensures b <= key(t[k]) {
      assert t[k] in multiset(t);
      if t[k] != x {
        assert t[k] in multiset(s);
        var m :| 0 <= m < |s| && s[m] == t[k];
      }
    }
  }

  lemma {:induction false} InsertByKeySorted<T>(x: T, s: seq<T>, key: T -> int)
    requires SortedBy(s, key)
    ensures SortedBy(InsertByKey(x, s, key), key)
  {
    if |s| == 0 || key(x) <= key(s[0]) {
      SortedCons(x, s, key);
    } else {
      SortedTail(s, key);
      InsertByKeySorted(x, s[1..], key);
      var t := InsertByKey(x, s[1..], key);
      assert s == [s[0]] + s[1..];
      BoundedInsert(key(s[0]), x, s[1..], t, key);
      SortedCons(s[0], t, key);
    }
  }

  /** OrderBy's permutation is in key order. */
  lemma {:induction false} OrderBySorted<T>(s: seq<T>, key: T -> int)
    ensures SortedBy(OrderBy(s, key), key)
  {
    if |s| > 0 {
      OrderBySorted(s[1..], key);
      InsertByKeySorted(s[0], OrderBy(s[1..], key), key);
    }
  }

  /** On an input that is already in key order, the stable OrderBy changes nothing. */
  lemma {:induction false} OrderByOfSorted<T>(s: seq<T>, key: T -> int)
    requires SortedBy(s, key)
    ensures OrderBy(s, key) == s
  {
    if |s| > 0 {
      SortedTail(s, key);
      OrderByOfSorted(s[1..], key);
      assert |s[1..]| == 0 || key(s[0]) <= key(s[1..][0]) by {
        if |s[1..]| > 0 { assert s[1..][0] == s[1]; }
      }
    }
  }

  /** Where keeps the relative order of what it keeps, so it preserves key order. */
  lemma {:induction false} WhereSorted<T>(s: seq<T>, p: T -> bool, key: T -> int)
    requires SortedBy(s, key)
    ensures SortedBy(Where(s, p), key)
  {
    if |s| > 0 {
      SortedTail(s, key);
      WhereSorted(s[1..], p, key);
      if p(s[0]) {
        BoundedMembers(key(s[0]), s[1..], Where(s[1..], p), key);
        SortedCons(s[0], Where(s[1..], p), key);
      }
    }
  }
}
