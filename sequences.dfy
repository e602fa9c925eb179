/** Generic sequence operations standing in for SQL's WHERE, ORDER BY, DISTINCT and LIMIT/OFFSET. */
module Sequences {

  ghost predicate SortedBy<T>(s: seq<T>, key: T -> int) {
    forall i, j :: 0 <= i < j < |s| ==> key(s[i]) <= key(s[j])
  }

  predicate StrictlyIncreasing(s: seq<int>) {
    forall i, j :: 0 <= i < j < |s| ==> s[i] < s[j]
  }

  predicate NoDuplicates<T(==)>(s: seq<T>) {
    forall i, j :: 0 <= i < j < |s| ==> s[i] != s[j]
  }

  /** Inserts x after every element whose key is not larger (so equal keys keep their order). */
  function InsertBy<T>(s: seq<T>, x: T, key: T -> int): (r: seq<T>)
    requires SortedBy(s, key)
    ensures SortedBy(r, key)
    ensures multiset(r) == multiset(s) + multiset{x}
    ensures |r| == |s| + 1
  {
    if s == [] then [x]
    else if key(x) < key(s[0]) then [x] + s
    else
      var rest := InsertBy(s[1..], x, key);
      assert s == [s[0]] + s[1..];
      HeadBelowRest(s, x, key, rest);
      [s[0]] + rest
  }

  lemma HeadBelowRest<T>(s: seq<T>, x: T, key: T -> int, rest: seq<T>)
    requires s != [] && SortedBy(s, key) && key(s[0]) <= key(x)
    requires SortedBy(rest, key) && multiset(rest) == multiset(s[1..]) + multiset{x}
    ensures SortedBy([s[0]] + rest, key)
  {
    forall k | 0 <= k < |rest| ensures key(s[0]) <= key(rest[k]) {
      assert rest[k] in multiset(rest);
      if rest[k] != x {
        assert rest[k] in s[1..];
        var m :| 0 <= m < |s| - 1 && s[1..][m] == rest[k];
        assert s[m + 1] == rest[k];
      }
    }
    var t := [s[0]] + rest;
    forall i, j | 0 <= i < j < |t| ensures key(t[i]) <= key(t[j]) {
      if i > 0 {
        assert t[i] == rest[i - 1] && t[j] == rest[j - 1];
      } else {
        assert t[j] == rest[j - 1];
      }
    }
  }

  /** A stable insertion sort: the ordering of an ORDER BY clause. */
  function SortBy<T>(s: seq<T>, key: T -> int): (r: seq<T>)
    ensures SortedBy(r, key)
    ensures multiset(r) == multiset(s)
    ensures |r| == |s|
  {
    if s == [] then []
    else
      assert s == s[..|s| - 1] + [s[|s| - 1]];
      InsertBy(SortBy(s[..|s| - 1], key), s[|s| - 1], key)
  }

  /** The rows of s that satisfy p: a WHERE clause. */
  function Filter<T(!new)>(s: seq<T>, p: T -> bool): (r: seq<T>)
    ensures forall x :: x in r <==> x in s && p(x)
    ensures |r| <= |s|
  {
    if s == [] then []
    else Filter(s[..|s| - 1], p) + (if p(s[|s| - 1]) then [s[|s| - 1]] else [])
  }

  /** A WHERE clause keeps every satisfying row exactly as often as it occurs, and no other row. */
  lemma {:induction false} FilterMultiplicity<T(!new)>(s: seq<T>, p: T -> bool)
    ensures forall x :: multiset(Filter(s, p))[x] == if p(x) then multiset(s)[x] else 0
  {
    if s != [] {
      var init, last := s[..|s| - 1], s[|s| - 1];
      assert s == init + [last];
      FilterMultiplicity(init, p);
    }
  }

  /** Filtering a duplicate-free sequence leaves it duplicate-free. */
  lemma {:induction false} FilterNoDuplicates<T(!new)>(s: seq<T>, p: T -> bool)
    requires NoDuplicates(s)
    ensures NoDuplicates(Filter(s, p))
  {
    if s != [] {
      var init, last := s[..|s| - 1], s[|s| - 1];
      assert NoDuplicates(init);
      FilterNoDuplicates(init, p);
      var f, r := Filter(init, p), Filter(s, p);
      if p(last) {
        assert last !in init;
        forall i, j | 0 <= i < j < |r| ensures r[i] != r[j] {
          assert r[i] == f[i] && f[i] in f;
          if j < |f| {
            assert r[j] == f[j];
          }
        }
      }
    }
  }

  /** Appending an element above every element keeps a sequence strictly increasing. */
  lemma SnocIncreasing(s: seq<int>, x: int)
    requires StrictlyIncreasing(s) && forall y :: y in s ==> y < x
    ensures StrictlyIncreasing(s + [x])
  {
    var r := s + [x];
    forall i, j | 0 <= i < j < |r| ensures r[i] < r[j] {
      assert r[i] == s[i] && s[i] in s;
      if j < |s| {
        assert r[j] == s[j];
      }
    }
  }

  /** Keeps the first occurrence of every element: a SELECT DISTINCT. */
  function Dedup<T(==,!new)>(s: seq<T>): (r: seq<T>)
    ensures forall x :: x in r <==> x in s
    ensures NoDuplicates(r)
    ensures |r| <= |s|
  {
    if s == [] then []
    else
      var d := Dedup(s[..|s| - 1]);
      if s[|s| - 1] in d then d else d + [s[|s| - 1]]
  }

  /** A duplicate-free sequence has exactly as many distinct elements as entries. */
  lemma {:induction false} DistinctCardinality<T>(s: seq<T>)
    requires NoDuplicates(s)
    ensures |set x | x in s| == |s|
  {
    if s != [] {
      var p := s[..|s| - 1];
      assert NoDuplicates(p);
      DistinctCardinality(p);
      assert (set x | x in s) == (set x | x in p) + {s[|s| - 1]};
      assert s[|s| - 1] !in (set x | x in p);
    }
  }

  /** The rows [o, o + l) of s, with SQLite's reading of LIMIT l OFFSET o:
      a negative limit means no limit, a negative offset means no offset. */
  function Window<T>(s: seq<T>, limit: int, offset: int): (r: seq<T>)
    ensures limit >= 0 ==> |r| <= limit
    ensures offset <= 0 && (limit < 0 || limit >= |s|) ==> r == s
    ensures offset >= |s| ==> r == []
  {
    var start := if offset < 0 then 0 else if offset > |s| then |s| else offset;
    var stop := if limit < 0 || start + limit > |s| then |s| else start + limit;
    s[start..stop]
  }

  /** Paging: the page of size a at offset o followed by the page of size b
      at offset o + a is the page of size a + b at offset o. */
  lemma WindowsConcatenate<T>(s: seq<T>, a: nat, b: nat, o: nat)
    ensures Window(s, a, o) + Window(s, b, o + a) == Window(s, a + b, o)
  {
  }

  /** The length of a window, and its rows as rows of s counted from the effective offset. */
  lemma WindowShape<T>(s: seq<T>, limit: int, offset: int)
    ensures var o := if offset < 0 then 0 else offset;
            && |Window(s, limit, offset)| == (if o >= |s| then 0 else if limit < 0 || o + limit > |s| then |s| - o else limit)
            && forall k :: 0 <= k < |Window(s, limit, offset)| ==> o + k < |s| && Window(s, limit, offset)[k] == s[o + k]
  {
  }

  /** Every row of a window is the row at the same distance from the offset. */
  lemma WindowAt<T>(s: seq<T>, limit: int, offset: nat, k: nat)
    requires k < |Window(s, limit, offset)|
    ensures offset + k < |s| && Window(s, limit, offset)[k] == s[offset + k]
  {
  }

  /** A sorted sequence of distinct integers is strictly increasing. */
  lemma SortedDistinctIncreasing(s: seq<int>)
    requires SortedBy(s, Identity)
    requires NoDuplicates(s)
    ensures StrictlyIncreasing(s)
  {
    forall i, j | 0 <= i < j < |s| ensures s[i] < s[j] {
      assert Identity(s[i]) <= Identity(s[j]);
    }
  }

  function Identity(x: int): int { x }

  /** The distinct elements of s in ascending order. */
  function SortedDistinct(s: seq<int>): (r: seq<int>)
    ensures StrictlyIncreasing(r)
    ensures forall x :: x in r <==> x in s
  {
    var d := Dedup(s);
    var r := SortBy(d, Identity);
    assert forall x :: x in r <==> x in multiset(d);
    NoDuplicatesPreserved(d, r);
    SortedDistinctIncreasing(r);
    r
  }

  /** Rearranging a duplicate-free sequence keeps it duplicate-free. */
  lemma {:induction false} NoDuplicatesPreserved<T>(s: seq<T>, t: seq<T>)
    requires NoDuplicates(s)
    requires multiset(t) == multiset(s)
    ensures NoDuplicates(t)
  {
    forall i, j | 0 <= i < j < |t| ensures t[i] != t[j] {
      if t[i] == t[j] {
        MultiplicityAtLeastTwo(t, i, j);
        MultiplicityAtMostOne(s, t[i]);
        assert false;
      }
    }
  }

  /** A sequence that holds no element twice, by multiplicity, is duplicate-free. */
  lemma NoDuplicatesOfMultiplicity<T>(t: seq<T>)
    requires forall x :: multiset(t)[x] <= 1
    ensures NoDuplicates(t)
  {
    forall i, j | 0 <= i < j < |t| ensures t[i] != t[j] {
      if t[i] == t[j] {
        MultiplicityAtLeastTwo(t, i, j);
        assert false;
      }
    }
  }

  lemma {:induction false} MultiplicityAtLeastTwo<T>(t: seq<T>, i: nat, j: nat)
    requires i < j < |t| && t[i] == t[j]
    ensures multiset(t)[t[i]] >= 2
  {
    assert t == t[..i] + [t[i]] + t[i + 1..j] + [t[j]] + t[j + 1..];
  }

  lemma {:induction false} MultiplicityAtMostOne<T>(s: seq<T>, x: T)
    requires NoDuplicates(s)
    ensures multiset(s)[x] <= 1
  {
    if s != [] {
      var p := s[..|s| - 1];
      assert s == p + [s[|s| - 1]];
      assert NoDuplicates(p);
      MultiplicityAtMostOne(p, x);
      if x == s[|s| - 1] {
        assert x !in p;
      }
    }
  }
}
