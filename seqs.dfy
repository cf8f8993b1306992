/** `Array.prototype.filter` and the stable `Array.prototype.sort` as the
    screens use them, over values. A sort comparator of the application is
    modelled by an integer key triple whose lexicographic order it follows
    (each screen proves that correspondence for its own comparator). */
module Seqs {

  /** `s.filter(p)`: the elements satisfying `p`, in their original order. */
  function Filter<T(!new)>(s: seq<T>, p: T -> bool): (r: seq<T>)
    ensures |r| <= |s|
    ensures forall x :: x in r <==> x in s && p(x)
  {
    if s == [] then [] else (if p(s[0]) then [s[0]] else []) + Filter(s[1..], p)
  }

  /** `a` is obtained from `b` by deleting elements, keeping the order of the rest. */
  ghost predicate Subsequence<T>(a: seq<T>, b: seq<T>)
    decreases |b|
  {
    if a == [] then true
    else if b == [] then false
    else (a[0] == b[0] && Subsequence(a[1..], b[1..])) || Subsequence(a, b[1..])
  }

  lemma {:induction false} FilterIsSubsequence<T(!new)>(s: seq<T>, p: T -> bool)
    ensures Subsequence(Filter(s, p), s)
  {
    if s != [] {
      FilterIsSubsequence(s[1..], p);
      if p(s[0]) {
        assert Filter(s, p) == [s[0]] + Filter(s[1..], p);
        assert Filter(s, p)[1..] == Filter(s[1..], p);
      } else {
        assert Filter(s, p) == Filter(s[1..], p);
      }
    }
  }

  /** Filtering on the last element of a sequence built up by `push`. */
  lemma FilterAppend<T(!new)>(s: seq<T>, x: T, p: T -> bool)
    ensures Filter(s + [x], p) == Filter(s, p) + (if p(x) then [x] else [])
  {
    FilterConcat(s, [x], p);
    FilterOne(x, p);
  }

  /** Filtering distributes over concatenation. */
  lemma {:induction false} FilterConcat<T(!new)>(a: seq<T>, b: seq<T>, p: T -> bool)
    ensures Filter(a + b, p) == Filter(a, p) + Filter(b, p)
  {
    if a != [] {
      assert (a + b)[1..] == a[1..] + b;
      FilterConcat(a[1..], b, p);
    } else {
      assert a + b == b;
    }
  }

  /** The elements kept by `p` and those kept by its complement `q` together
      make up the input: a filter and its complement partition it. */
  lemma {:induction false} FilterPartition<T(!new)>(s: seq<T>, p: T -> bool, q: T -> bool)
    requires forall x :: q(x) <==> !p(x)
    ensures multiset(Filter(s, p)) + multiset(Filter(s, q)) == multiset(s)
    ensures |Filter(s, p)| + |Filter(s, q)| == |s|
  {
    if s != [] {
      FilterPartition(s[1..], p, q);
      assert s == [s[0]] + s[1..];
    }
  }

  /** A filter whose predicate every element satisfies keeps everything. */
  lemma {:induction false} FilterAll<T(!new)>(s: seq<T>, p: T -> bool)
    requires forall x :: x in s ==> p(x)
    ensures Filter(s, p) == s
  {
    if s != [] {
      assert s == [s[0]] + s[1..];
      FilterAll(s[1..], p);
    }
  }

  /** Filtering by `p` then by `q` is filtering by their conjunction `both`. */
  lemma {:induction false} FilterFilter<T(!new)>(s: seq<T>, p: T -> bool, q: T -> bool, both: T -> bool)
    requires forall x :: both(x) == (p(x) && q(x))
    ensures Filter(Filter(s, p), q) == Filter(s, both)
  {
    if s != [] {
      FilterFilter(s[1..], p, q, both);
      FilterConcat(if p(s[0]) then [s[0]] else [], Filter(s[1..], p), q);
    }
  }

  lemma FilterOne<T(!new)>(x: T, p: T -> bool)
    ensures Filter([x], p) == if p(x) then [x] else []
  {
    assert [x][1..] == [];
  }

  /** Filters by predicates that agree everywhere agree. */
  lemma {:induction false} FilterExt<T(!new)>(s: seq<T>, p: T -> bool, q: T -> bool)
    requires forall x :: p(x) == q(x)
    ensures Filter(s, p) == Filter(s, q)
  {
    if s != [] {
      FilterExt(s[1..], p, q);
    }
  }

  /** The number of elements satisfying `p` is at most the number satisfying
      a weaker `q`. */
  lemma {:induction false} FilterMonotone<T(!new)>(s: seq<T>, p: T -> bool, q: T -> bool)
    requires forall x :: p(x) ==> q(x)
    ensures |Filter(s, p)| <= |Filter(s, q)|
  {
    if s != [] {
      FilterMonotone(s[1..], p, q);
    }
  }

  // ---------------------------------------------------------------------------
  // Stable sorting by a key triple

  datatype Key = Key(major: int, middle: int, minor: int)

  /** Lexicographic order on keys: `a` may come before `b`. */
  predicate KeyLeq(a: Key, b: Key) {
    a.major < b.major
    || (a.major == b.major && a.middle < b.middle)
    || (a.major == b.major && a.middle == b.middle && a.minor <= b.minor)
  }

  ghost predicate SortedBy<T>(s: seq<T>, key: T -> Key) {
    forall i, j :: 0 <= i < j < |s| ==> KeyLeq(key(s[i]), key(s[j]))
  }

  /** Inserts `x` before the first element whose key is not below `x`'s. */
  function Insert<T>(x: T, s: seq<T>, key: T -> Key): (r: seq<T>)
    ensures multiset(r) == multiset(s) + multiset{x}
    ensures |r| == |s| + 1
  {
    if s == [] then [x]
    else if KeyLeq(key(x), key(s[0])) then [x] + s
    else
      assert s == [s[0]] + s[1..];
      [s[0]] + Insert(x, s[1..], key)
  }

  /** The stable sort of `s` by `key` (a stable insertion sort: equal keys
      keep their input order). */
  function SortBy<T>(s: seq<T>, key: T -> Key): (r: seq<T>)
    ensures |r| == |s|
  {
    if s == [] then [] else Insert(s[0], SortBy(s[1..], key), key)
  }

  lemma {:induction false} InsertSorted<T>(x: T, s: seq<T>, key: T -> Key)
    requires SortedBy(s, key)
    ensures SortedBy(Insert(x, s, key), key)
  {
    if s != [] && !KeyLeq(key(x), key(s[0])) {
      InsertSorted(x, s[1..], key);
      var r := Insert(x, s, key);
      var t := Insert(x, s[1..], key);
      assert r == [s[0]] + t;
      assert multiset(t) == multiset(s[1..]) + multiset{x};
      forall j | 0 < j < |r|
        ensures KeyLeq(key(s[0]), key(r[j]))
      {
        assert r[j] in multiset(t);
        if r[j] == x {
        } else {
          assert r[j] in multiset(s[1..]);
          var k :| 0 <= k < |s[1..]| && s[1..][k] == r[j];
          assert s[k + 1] == r[j];
        }
      }
    }
  }

  /** Sorting neither adds nor drops elements. */
  lemma SortByMembers<T>(s: seq<T>, key: T -> Key)
    ensures forall x :: x in SortBy(s, key) <==> x in s
  {
    SortBySorted(s, key);
    forall x ensures x in SortBy(s, key) <==> x in s {
      assert x in SortBy(s, key) <==> x in multiset(SortBy(s, key));
      assert x in s <==> x in multiset(s);
    }
  }

  /** The sort's result is ordered by the key and is a permutation of its input. */
  lemma SortBySorted<T>(s: seq<T>, key: T -> Key)
    ensures SortedBy(SortBy(s, key), key)
    ensures multiset(SortBy(s, key)) == multiset(s)
  {
    SortByOrdered(s, key);
    SortByPermutes(s, key);
  }

  lemma {:induction false} SortByOrdered<T>(s: seq<T>, key: T -> Key)
    ensures SortedBy(SortBy(s, key), key)
  {
    if s != [] {
      SortByOrdered(s[1..], key);
      InsertSorted(s[0], SortBy(s[1..], key), key);
    }
  }

  lemma {:induction false} SortByPermutes<T>(s: seq<T>, key: T -> Key)
    ensures multiset(SortBy(s, key)) == multiset(s)
  {
    if s != [] {
      SortByPermutes(s[1..], key);
      assert s == [s[0]] + s[1..];
    }
  }

  /** Inserting `x` keeps the relative order of the elements whose key is
      `k` (those satisfying `hasKey`). */
  lemma {:induction false} InsertStable<T(!new)>(x: T, s: seq<T>, key: T -> Key, k: Key, hasKey: T -> bool)
    requires forall y :: hasKey(y) == (key(y) == k)
    ensures Filter(Insert(x, s, key), hasKey) == (if key(x) == k then [x] else []) + Filter(s, hasKey)
  {
    FilterOne(x, hasKey);
    if s == [] {
      assert Insert(x, s, key) == [x];
    } else if KeyLeq(key(x), key(s[0])) {
      assert Insert(x, s, key) == [x] + s;
      FilterConcat([x], s, hasKey);
    } else {
      InsertStable(x, s[1..], key, k, hasKey);
      assert Insert(x, s, key) == [s[0]] + Insert(x, s[1..], key);
      assert s == [s[0]] + s[1..];
      FilterPastHead(x, s[0], s[1..], Insert(x, s[1..], key), key, k, hasKey);
    }
  }

  /** The step of `InsertStable` where `x` goes after the head `h`: the two
      keys differ, so at most one of them is `k` and the order of the
      filtered elements is unaffected. */
  lemma FilterPastHead<T(!new)>(x: T, h: T, rest: seq<T>, t: seq<T>, key: T -> Key, k: Key, hasKey: T -> bool)
    requires forall y :: hasKey(y) == (key(y) == k)
    requires !KeyLeq(key(x), key(h))
    requires Filter(t, hasKey) == (if key(x) == k then [x] else []) + Filter(rest, hasKey)
    ensures Filter([h] + t, hasKey) == (if key(x) == k then [x] else []) + Filter([h] + rest, hasKey)
  {
    var ft, fr := Filter(t, hasKey), Filter(rest, hasKey);
    assert ([h] + t)[0] == h && ([h] + t)[1..] == t;
    assert ([h] + rest)[0] == h && ([h] + rest)[1..] == rest;
    if hasKey(h) {
      assert key(h) == k;
      assert key(x) != k;
      assert ft == fr;
      assert Filter([h] + t, hasKey) == [h] + ft;
      assert Filter([h] + rest, hasKey) == [h] + fr;
    } else {
      assert Filter([h] + t, hasKey) == ft;
      assert Filter([h] + rest, hasKey) == fr;
    }
  }

  /** Stability: for every key `k`, the elements with that key (those
      satisfying `hasKey`) appear in the sorted output in the order they had
      in the input. */
  lemma {:induction false} SortByStable<T(!new)>(s: seq<T>, key: T -> Key, k: Key, hasKey: T -> bool)
    requires forall y :: hasKey(y) == (key(y) == k)
    ensures Filter(SortBy(s, key), hasKey) == Filter(s, hasKey)
  {
    if s != [] {
      SortByStable(s[1..], key, k, hasKey);
      InsertStable(s[0], SortBy(s[1..], key), key, k, hasKey);
    }
  }
}
