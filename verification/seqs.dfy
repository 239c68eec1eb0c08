/**
  Sequence building blocks shared by the widgets: `Array.prototype.filter` (an
  order-preserving selection), the index list a filter keeps, and the stable
  `Array.prototype.sort` with a numeric comparator `(a, b) => key(a) - key(b)`.
 */
module Seqs {

  /** Strictly increasing indices. */
  ghost predicate Ascending(s: seq<nat>) {
    forall a, b :: 0 <= a < b < |s| ==> s[a] < s[b]
  }

  /** `r` is read off `s` at the increasing positions `idx`. */
  ghost predicate Embeds<T>(idx: seq<nat>, r: seq<T>, s: seq<T>) {
    && |idx| == |r|
    && Ascending(idx)
    && forall k :: 0 <= k < |idx| ==> idx[k] < |s| && r[k] == s[idx[k]]
  }

  /** `r` is an order-preserving subsequence of `s`. */
  ghost predicate Subsequence<T>(r: seq<T>, s: seq<T>) {
    exists idx :: Embeds(idx, r, s)
  }

  /** The positions of `s` whose element satisfies `p`, in increasing order. */
  function KeptIndices<T>(s: seq<T>, p: T -> bool): (idx: seq<nat>)
    ensures Ascending(idx)
    ensures forall k :: 0 <= k < |idx| ==> idx[k] < |s|
    ensures forall i :: 0 <= i < |s| ==> (i in idx <==> p(s[i]))
  {
    if |s| == 0 then []
    else
      var front := KeptIndices(s[..|s| - 1], p);
      assert forall i :: 0 <= i < |s| - 1 ==> s[..|s| - 1][i] == s[i];
      if p(s[|s| - 1]) then front + [|s| - 1] else front
  }

  /**
    `s.filter(p)`: exactly the elements at the kept positions, in their order, so
    the result is a subsequence holding every element that passes and no other.
   */
  function Filter<T>(s: seq<T>, p: T -> bool): (r: seq<T>)
    ensures |r| <= |s|
    ensures forall k :: 0 <= k < |r| ==> p(r[k])
  {
    if |s| == 0 then []
    else
      var front := Filter(s[..|s| - 1], p);
      if p(s[|s| - 1]) then front + [s[|s| - 1]] else front
  }

  /** The filter reads its result off the input at exactly the kept positions. */
  lemma {:induction false} FilterEmbeds<T>(s: seq<T>, p: T -> bool)
    ensures Embeds(KeptIndices(s, p), Filter(s, p), s)
  {
    if |s| > 0 {
      var s' := s[..|s| - 1];
      FilterEmbeds(s', p);
      assert forall i :: 0 <= i < |s'| ==> s'[i] == s[i];
    }
  }

  /** An element survives the filter exactly when it occurs in the input and passes. */
  lemma FilterMembership<T>(s: seq<T>, p: T -> bool, x: T)
    ensures x in Filter(s, p) <==> x in s && p(x)
  {
    var r := Filter(s, p);
    var idx := KeptIndices(s, p);
    FilterEmbeds(s, p);
    if x in r {
      var k :| 0 <= k < |r| && r[k] == x;
      assert s[idx[k]] == x;
    }
    if x in s && p(x) {
      var i :| 0 <= i < |s| && s[i] == x;
      assert i in idx;
      var k :| 0 <= k < |idx| && idx[k] == i;
      assert r[k] == x;
    }
  }

  lemma FilterIsSubsequence<T>(s: seq<T>, p: T -> bool)
    ensures Subsequence(Filter(s, p), s)
  {
    FilterEmbeds(s, p);
  }

  /** What a caller of `filter` relies on: order kept, only passing elements, none of them lost. */
  lemma FilterSpec<T>(s: seq<T>, p: T -> bool)
    ensures Subsequence(Filter(s, p), s)
    ensures forall k :: 0 <= k < |Filter(s, p)| ==> p(Filter(s, p)[k])
    ensures forall i :: 0 <= i < |s| && p(s[i]) ==> s[i] in Filter(s, p)
  {
    FilterIsSubsequence(s, p);
    forall i | 0 <= i < |s| && p(s[i]) ensures s[i] in Filter(s, p) {
      FilterMembership(s, p, s[i]);
    }
  }

  lemma {:induction false} FilterConcat<T>(a: seq<T>, b: seq<T>, p: T -> bool)
    ensures Filter(a + b, p) == Filter(a, p) + Filter(b, p)
    decreases |b|
  {
    if |b| > 0 {
      var b' := b[..|b| - 1];
      assert (a + b)[..|a + b| - 1] == a + b';
      FilterConcat(a, b', p);
    } else {
      assert a + b == a;
    }
  }

  /** Filtering keeps everything exactly when every element passes. */
  lemma FilterAll<T>(s: seq<T>, p: T -> bool)
    ensures Filter(s, p) == s <==> forall i :: 0 <= i < |s| ==> p(s[i])
  {
    if forall i :: 0 <= i < |s| ==> p(s[i]) {
      FilterKeepsAll(s, p);
    }
  }

  lemma {:induction false} FilterKeepsAll<T>(s: seq<T>, p: T -> bool)
    requires forall i :: 0 <= i < |s| ==> p(s[i])
    ensures Filter(s, p) == s
  {
    if |s| > 0 {
      var s' := s[..|s| - 1];
      assert forall i :: 0 <= i < |s'| ==> p(s'[i]) by {
        forall i | 0 <= i < |s'| ensures p(s'[i]) {
          assert s'[i] == s[i];
        }
      }
      FilterKeepsAll(s', p);
      assert Filter(s, p) == Filter(s', p) + [s[|s| - 1]];
      assert s' + [s[|s| - 1]] == s;
    }
  }

  lemma {:induction false} FilterNone<T>(s: seq<T>, p: T -> bool)
    requires forall i :: 0 <= i < |s| ==> !p(s[i])
    ensures Filter(s, p) == []
  {
    if |s| > 0 {
      FilterNone(s[..|s| - 1], p);
    }
  }

  /** Filtering with `p` and then with `q` is filtering once with their conjunction. */
  lemma {:induction false} FilterFilter<T>(s: seq<T>, p: T -> bool, q: T -> bool, both: T -> bool)
    requires forall x :: both(x) == (p(x) && q(x))
    ensures Filter(Filter(s, p), q) == Filter(s, both)
  {
    if |s| > 0 {
      var s' := s[..|s| - 1];
      var x := s[|s| - 1];
      FilterFilter(s', p, q, both);
      if p(x) {
        FilterConcat(Filter(s', p), [x], q);
        assert [x][..0] == [];
      }
    }
  }

  /** A second pass of the same filter removes nothing. */
  lemma FilterIdempotent<T>(s: seq<T>, p: T -> bool)
    ensures Filter(Filter(s, p), p) == Filter(s, p)
  {
    FilterAll(Filter(s, p), p);
  }

  /** Applying `f` to every element: `s.map(f)`. */
  function Map<T, U>(s: seq<T>, f: T -> U): (r: seq<U>)
    ensures |r| == |s|
    ensures forall k :: 0 <= k < |s| ==> r[k] == f(s[k])
  {
    seq(|s|, k requires 0 <= k < |s| => f(s[k]))
  }

  /** Non-decreasing by `key`. */
  ghost predicate SortedBy<T>(s: seq<T>, key: T -> real) {
    forall i, j :: 0 <= i < j < |s| ==> key(s[i]) <= key(s[j])
  }

  /** Put `x` after every element whose key is not larger, before the first larger one. */
  function Insert<T>(x: T, t: seq<T>, key: T -> real): (r: seq<T>)
    ensures |r| == |t| + 1
    ensures multiset(r) == multiset(t) + multiset{x}
  {
    if |t| == 0 then [x]
    else if key(x) < key(t[0]) then [x] + t
    else
      assert t == [t[0]] + t[1..];
      [t[0]] + Insert(x, t[1..], key)
  }

  lemma {:induction false} InsertSorted<T>(x: T, t: seq<T>, key: T -> real)
    requires SortedBy(t, key)
    ensures SortedBy(Insert(x, t, key), key)
  {
    if |t| > 0 {
      SortedTail(t, key);
      if key(x) < key(t[0]) {
        SortedCons(x, t, key);
      } else {
        InsertSorted(x, t[1..], key);
        InsertBounded(x, t[1..], key, key(t[0]));
        SortedCons(t[0], Insert(x, t[1..], key), key);
      }
    }
  }

  /** A lower bound of `x` and of every element of `t` bounds every element after the insertion. */
  lemma {:induction false} InsertBounded<T>(x: T, t: seq<T>, key: T -> real, b: real)
    requires b <= key(x) && forall i :: 0 <= i < |t| ==> b <= key(t[i])
    ensures forall j :: 0 <= j < |Insert(x, t, key)| ==> b <= key(Insert(x, t, key)[j])
  {
    if |t| > 0 && key(x) >= key(t[0]) {
      forall i | 0 <= i < |t[1..]| ensures b <= key(t[1..][i]) {
        assert t[1..][i] == t[i + 1];
      }
      InsertBounded(x, t[1..], key, b);
    }
  }

  /** A sorted list stays sorted behind an element whose key is not larger than any of its keys. */
  lemma SortedCons<T>(a: T, t: seq<T>, key: T -> real)
    requires SortedBy(t, key) && forall i :: 0 <= i < |t| ==> key(a) <= key(t[i])
    ensures SortedBy([a] + t, key)
  {
    forall i, j | 0 <= i < j < |[a] + t| ensures key(([a] + t)[i]) <= key(([a] + t)[j]) {
      assert ([a] + t)[j] == t[j - 1];
      if i > 0 {
        assert ([a] + t)[i] == t[i - 1];
      }
    }
  }

  /**
    `s.slice().sort((a, b) => key(a) - key(b))`: a stable insertion sort, each element
    taken in input order and placed after the equal keys already placed.
   */
  function SortBy<T>(s: seq<T>, key: T -> real): (r: seq<T>)
    ensures |r| == |s|
  {
    if |s| == 0 then [] else Insert(s[|s| - 1], SortBy(s[..|s| - 1], key), key)
  }

  /** The sort keeps every element, as often as it occurs. */
  lemma {:induction false} SortByPermutes<T>(s: seq<T>, key: T -> real)
    ensures multiset(SortBy(s, key)) == multiset(s)
  {
    if |s| > 0 {
      var s', x := s[..|s| - 1], s[|s| - 1];
      SortByPermutes(s', key);
      MultisetLast(s);
    }
  }

  /** A non-empty list holds its last element and the elements before it. */
  lemma MultisetLast<T>(s: seq<T>)
    requires |s| > 0
    ensures multiset(s) == multiset(s[..|s| - 1]) + multiset{s[|s| - 1]}
  {
    assert s == s[..|s| - 1] + [s[|s| - 1]];
  }

  /** A rearrangement of a list whose every element passes a test holds only passing elements. */
  lemma PermutationKeeps<T>(r: seq<T>, s: seq<T>, p: T -> bool)
    requires multiset(r) == multiset(s)
    requires forall k :: 0 <= k < |s| ==> p(s[k])
    ensures forall k :: 0 <= k < |r| ==> p(r[k])
  {
    forall k | 0 <= k < |r| ensures p(r[k]) {
      assert r[k] in multiset(s);
      var j :| 0 <= j < |s| && s[j] == r[k];
    }
  }

  /** The sort puts the elements in key order. */
  lemma {:induction false} SortBySorted<T>(s: seq<T>, key: T -> real)
    ensures SortedBy(SortBy(s, key), key)
  {
    if |s| > 0 {
      var s' := s[..|s| - 1];
      SortBySorted(s', key);
      InsertSorted(s[|s| - 1], SortBy(s', key), key);
    }
  }

  /** Both halves of the sort's specification. */
  lemma SortBySpec<T>(s: seq<T>, key: T -> real)
    ensures multiset(SortBy(s, key)) == multiset(s)
    ensures SortedBy(SortBy(s, key), key)
  {
    SortByPermutes(s, key);
    SortBySorted(s, key);
  }

  lemma SortedTail<T>(t: seq<T>, key: T -> real)
    requires |t| > 0 && SortedBy(t, key)
    ensures SortedBy(t[1..], key)
    ensures forall i :: 0 <= i < |t| ==> key(t[0]) <= key(t[i])
  {
    forall i, j | 0 <= i < j < |t[1..]| ensures key(t[1..][i]) <= key(t[1..][j]) {
      assert t[1..][i] == t[i + 1] && t[1..][j] == t[j + 1];
    }
  }

  /** The elements whose key is `v`. */
  function KeyIs<T>(key: T -> real, v: real): T -> bool {
    y => key(y) == v
  }

  /** Inserting `x` appends it to the run of elements it ties with. */
  lemma {:induction false} InsertFilter<T>(x: T, t: seq<T>, key: T -> real, v: real)
    requires SortedBy(t, key)
    ensures Filter(Insert(x, t, key), KeyIs(key, v)) == Filter(t, KeyIs(key, v)) + Filter([x], KeyIs(key, v))
  {
    if |t| == 0 {
      assert Insert(x, t, key) == [x];
    } else if key(x) < key(t[0]) {
      InsertFilterFront(x, t, key, v);
    } else {
      var rest := Insert(x, t[1..], key);
      SortedTail(t, key);
      InsertFilter(x, t[1..], key, v);
      assert Insert(x, t, key) == [t[0]] + rest;
      FilterPastHead(t[0], t[1..], rest, x, KeyIs(key, v));
      HeadTail(t);
    }
  }

  /** Placed in front of a sorted list with larger keys, `x` is the first of its own key. */
  lemma InsertFilterFront<T>(x: T, t: seq<T>, key: T -> real, v: real)
    requires SortedBy(t, key) && |t| > 0 && key(x) < key(t[0])
    ensures Filter(Insert(x, t, key), KeyIs(key, v)) == Filter(t, KeyIs(key, v)) + Filter([x], KeyIs(key, v))
  {
    assert Insert(x, t, key) == [x] + t;
    if key(x) == v {
      SortedTail(t, key);
      forall i | 0 <= i < |t| ensures !KeyIs(key, v)(t[i]) {
        assert key(t[i]) > v;
      }
      FilterNone(t, KeyIs(key, v));
    }
    FilterFront(x, t, KeyIs(key, v));
  }

  /** An element that comes before everything else it passes with can move to the back of the filtered list. */
  lemma FilterFront<T>(x: T, t: seq<T>, p: T -> bool)
    requires p(x) ==> Filter(t, p) == []
    ensures Filter([x] + t, p) == Filter(t, p) + Filter([x], p)
  {
    FilterConcat([x], t, p);
  }

  /** A common head passes through the filter ahead of the rest on both sides. */
  lemma FilterPastHead<T>(a: T, t: seq<T>, rest: seq<T>, x: T, p: T -> bool)
    requires Filter(rest, p) == Filter(t, p) + Filter([x], p)
    ensures Filter([a] + rest, p) == Filter([a] + t, p) + Filter([x], p)
  {
    FilterConcat([a], rest, p);
    FilterConcat([a], t, p);
  }

  /** A non-empty sequence is its head followed by its tail. */
  lemma HeadTail<T>(s: seq<T>)
    requires |s| > 0
    ensures [s[0]] + s[1..] == s
  {
  }

  /**
    The sort is stable: for every key value, the elements with that key come out in
    the order they went in.
   */
  lemma {:induction false} SortStable<T>(s: seq<T>, key: T -> real, v: real)
    ensures Filter(SortBy(s, key), KeyIs(key, v)) == Filter(s, KeyIs(key, v))
  {
    if |s| > 0 {
      var s', x := s[..|s| - 1], s[|s| - 1];
      var same := KeyIs(key, v);
      var front := SortBy(s', key);
      assert SortBy(s, key) == Insert(x, front, key);
      assert Filter(front, same) == Filter(s', same) by {
        SortStable(s', key, v);
      }
      assert Filter(Insert(x, front, key), same) == Filter(front, same) + Filter([x], same) by {
        SortBySorted(s', key);
        InsertFilter(x, front, key, v);
      }
      FilterLast(s, same);
    }
  }

  /** Filtering a non-empty list is filtering all but its last element, then the last one. */
  lemma FilterLast<T>(s: seq<T>, p: T -> bool)
    requires |s| > 0
    ensures Filter(s, p) == Filter(s[..|s| - 1], p) + Filter([s[|s| - 1]], p)
  {
    FilterConcat(s[..|s| - 1], [s[|s| - 1]], p);
    assert s[..|s| - 1] + [s[|s| - 1]] == s;
  }
}
