/** Sequence operations shared by the handlers and routes: JavaScript's `filter`, a stable
    ascending sort by an integer key (MongoDB's `.sort`), and a skip/limit window. */
module Seqs {

  /** No element occurs twice. */
  predicate NoDup<T(==)>(s: seq<T>) {
    forall i, j :: 0 <= i < j < |s| ==> s[i] != s[j]
  }

  /** The elements of `s` that satisfy `p`, in their original order. */
  function Filter<T>(s: seq<T>, p: T -> bool): (r: seq<T>)
    ensures |r| <= |s|
  {
    if s == [] then []
    else (if p(s[0]) then [s[0]] else []) + Filter(s[1..], p)
  }

  /** The filter keeps exactly the elements that satisfy the predicate, each at most as often as
      the input holds it. */
  lemma FilterMembers<T>(s: seq<T>, p: T -> bool)
    ensures var r := Filter(s, p);
      && (forall i :: 0 <= i < |r| ==> r[i] in s && p(r[i]))
      && (forall i :: 0 <= i < |s| && p(s[i]) ==> s[i] in r)
      && multiset(r) <= multiset(s)
  {
    FilterSubMultiset(s, p);
    FilterSatisfies(s, p);
    FilterFinds(s, p);
    var r := Filter(s, p);
    forall i | 0 <= i < |r| ensures r[i] in s {
      assert r[i] in multiset(r);
    }
  }

  lemma {:induction false} FilterSubMultiset<T>(s: seq<T>, p: T -> bool)
    ensures multiset(Filter(s, p)) <= multiset(s)
  {
    if s != [] {
      FilterSubMultiset(s[1..], p);
      assert s == [s[0]] + s[1..];
    }
  }

  lemma {:induction false} FilterSatisfies<T>(s: seq<T>, p: T -> bool)
    ensures forall i :: 0 <= i < |Filter(s, p)| ==> p(Filter(s, p)[i])
  {
    if s != [] {
      FilterSatisfies(s[1..], p);
    }
  }

  lemma {:induction false} FilterFinds<T>(s: seq<T>, p: T -> bool)
    ensures forall i :: 0 <= i < |s| && p(s[i]) ==> s[i] in Filter(s, p)
  {
    if s != [] {
      FilterFinds(s[1..], p);
      var head := if p(s[0]) then [s[0]] else [];
      assert Filter(s, p) == head + Filter(s[1..], p);
      forall i | 1 <= i < |s| && p(s[i]) ensures s[i] in Filter(s, p) {
        assert s[i] == s[1..][i - 1];
      }
    }
  }

  /** Filtering distributes over concatenation: the relative order of kept elements is the input's. */
  lemma {:induction false} FilterAppend<T>(a: seq<T>, b: seq<T>, p: T -> bool)
    ensures Filter(a + b, p) == Filter(a, p) + Filter(b, p)
  {
    if a == [] {
      assert a + b == b;
    } else {
      var ab := a + b;
      var head := if p(a[0]) then [a[0]] else [];
      assert ab[0] == a[0];
      assert ab[1..] == a[1..] + b;
      FilterAppend(a[1..], b, p);
      assert Filter(ab, p) == head + (Filter(a[1..], p) + Filter(b, p));
      assert Filter(a, p) == head + Filter(a[1..], p);
    }
  }

  /** Filtering with a predicate every element satisfies changes nothing. */
  lemma {:induction false} FilterKeepsAll<T>(s: seq<T>, p: T -> bool)
    requires forall i :: 0 <= i < |s| ==> p(s[i])
    ensures Filter(s, p) == s
  {
    if s != [] {
      FilterKeepsAll(s[1..], p);
    }
  }

  /** A filter of a filter is the filter by both predicates. */
  lemma {:induction false} FilterFilter<T>(s: seq<T>, p: T -> bool, q: T -> bool)
    ensures Filter(Filter(s, p), q) == Filter(s, x => p(x) && q(x))
  {
    if s != [] {
      FilterFilter(s[1..], p, q);
      var head := if p(s[0]) then [s[0]] else [];
      FilterAppend(head, Filter(s[1..], p), q);
    }
  }

  /** Filtering keeps a sequence free of duplicates. */
  lemma {:induction false} FilterNoDup<T>(s: seq<T>, p: T -> bool)
    requires NoDup(s)
    ensures NoDup(Filter(s, p))
  {
    if s != [] {
      FilterNoDup(s[1..], p);
      FilterMembers(s[1..], p);
      var rest := Filter(s[1..], p);
      assert s[0] !in s[1..];
      assert forall i :: 0 <= i < |rest| ==> rest[i] != s[0];
    }
  }

  /** Two sequences that agree on which positions pass the predicate, and on the elements at the
      passing positions, filter to the same sequence. */
  lemma {:induction false} FilterAgrees<T>(a: seq<T>, b: seq<T>, p: T -> bool)
    requires |a| == |b|
    requires forall k :: 0 <= k < |a| ==> p(a[k]) == p(b[k]) && (p(a[k]) ==> a[k] == b[k])
    ensures Filter(a, p) == Filter(b, p)
  {
    if a != [] {
      FilterAgrees(a[1..], b[1..], p);
    }
  }

  /** Filtering out the one element that fails the predicate removes it at its position and keeps
      the rest in order. */
  lemma FilterOutOne<T>(s: seq<T>, p: T -> bool, k: nat)
    requires k < |s| && !p(s[k])
    requires forall j :: 0 <= j < k ==> p(s[j])
    requires forall j :: k < j < |s| ==> p(s[j])
    ensures Filter(s, p) == s[..k] + s[k + 1..]
  {
    var before, rest, after := s[..k], s[k..], s[k + 1..];
    assert Filter(before, p) == before by {
      FilterKeepsAll(before, p);
    }
    assert Filter(rest, p) == after by {
      assert rest[1..] == after;
      FilterKeepsAll(after, p);
    }
    assert s == before + rest;
    FilterAppend(before, rest, p);
  }

  /** The keys of `s` never decrease. */
  predicate SortedBy<T>(s: seq<T>, key: T -> int) {
    forall i, j :: 0 <= i < j < |s| ==> key(s[i]) <= key(s[j])
  }

  /** Inserts `x` before the first element whose key is not smaller. */
  function Insert<T>(x: T, s: seq<T>, key: T -> int): (r: seq<T>)
    ensures |r| == |s| + 1
  {
    if s == [] || key(x) <= key(s[0]) then [x] + s
    else [s[0]] + Insert(x, s[1..], key)
  }

  /** Inserting adds one `x` and nothing else. */
  lemma {:induction false} InsertMultiset<T>(x: T, s: seq<T>, key: T -> int)
    ensures multiset(Insert(x, s, key)) == multiset(s) + multiset{x}
  {
    if s != [] && key(x) > key(s[0]) {
      InsertMultiset(x, s[1..], key);
      assert s == [s[0]] + s[1..];
    }
  }

  /** Inserting into a sorted sequence gives a sorted sequence. */
  lemma {:induction false} InsertSorted<T>(x: T, s: seq<T>, key: T -> int)
    requires SortedBy(s, key)
    ensures SortedBy(Insert(x, s, key), key)
  {
    if s == [] || key(x) <= key(s[0]) {
      ConsSorted(x, s, key);
    } else {
      var tail := s[1..];
      assert SortedBy(tail, key) by {
        forall i, j | 0 <= i < j < |tail| ensures key(tail[i]) <= key(tail[j]) {
          assert tail[i] == s[i + 1] && tail[j] == s[j + 1];
        }
      }
      InsertSorted(x, tail, key);
      var rest := Insert(x, tail, key);
      assert key(s[0]) <= key(rest[0]) by {
        if tail != [] && key(x) > key(tail[0]) {
          assert rest[0] == tail[0] == s[1];
        }
      }
      ConsSorted(s[0], rest, key);
    }
  }

  /** Putting an element no greater than the head in front of a sorted sequence keeps it sorted. */
  lemma ConsSorted<T>(h: T, s: seq<T>, key: T -> int)
    requires SortedBy(s, key) && (s == [] || key(h) <= key(s[0]))
    ensures SortedBy([h] + s, key)
  {
    var r := [h] + s;
    forall i, j | 0 <= i < j < |r| ensures key(r[i]) <= key(r[j]) {
      assert r[j] == s[j - 1];
      if i == 0 {
        assert key(s[0]) <= key(s[j - 1]);
      } else {
        assert r[i] == s[i - 1];
      }
    }
  }

  /** Stable insertion sort, ascending by `key`. */
  function SortBy<T>(s: seq<T>, key: T -> int): (r: seq<T>)
    ensures SortedBy(r, key)
    ensures multiset(r) == multiset(s)
    ensures |r| == |s|
  {
    if s == [] then []
    else
      var sorted := SortBy(s[1..], key);
      InsertSorted(s[0], sorted, key);
      InsertMultiset(s[0], sorted, key);
      assert s == [s[0]] + s[1..];
      Insert(s[0], sorted, key)
  }

  /** With every key equal, the sort keeps the input order. */
  lemma {:induction false} SortByConstant<T>(s: seq<T>, key: T -> int, c: int)
    requires forall i :: 0 <= i < |s| ==> key(s[i]) == c
    ensures SortBy(s, key) == s
  {
    if s != [] {
      SortByConstant(s[1..], key, c);
    }
  }

  /** The elements `skip .. skip + limit` of `s` that exist (MongoDB's `.skip(skip).limit(limit)`). */
  function Window<T>(s: seq<T>, skip: nat, limit: nat): (r: seq<T>)
    ensures |r| == if skip >= |s| then 0 else if |s| - skip < limit then |s| - skip else limit
    ensures forall i :: 0 <= i < |r| ==> r[i] == s[skip + i]
  {
    if skip >= |s| then []
    else if skip + limit <= |s| then s[skip..skip + limit]
    else s[skip..]
  }

  /** Two adjacent windows make up the window that spans both. */
  lemma WindowsAdjacent<T>(s: seq<T>, skip: nat, a: nat, b: nat)
    ensures Window(s, skip, a) + Window(s, skip + a, b) == Window(s, skip, a + b)
  {
    var l, r, w := Window(s, skip, a), Window(s, skip + a, b), Window(s, skip, a + b);
    assert |l + r| == |w|;
    forall i | 0 <= i < |w| ensures (l + r)[i] == w[i] {
      if i >= |l| {
        assert (l + r)[i] == r[i - |l|];
      }
    }
  }
}
