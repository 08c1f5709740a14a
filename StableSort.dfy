/**
 * The reference behaviour of JavaScript's `Array.prototype.sort` with a
 * numeric-difference comparator on an integer key: a STABLE sort (required
 * of `sort` since ECMAScript 2019). The comparator `a.k - b.k` sorts by `k`
 * ascending; `b.k - a.k` is the same stable sort by the negated key.
 * Filtering helpers used by the screens live here too.
 */
module StableSort {

  /** `s.filter(p)`: the elements satisfying `p`, in order. */
  function Filter<T>(s: seq<T>, p: T -> bool): (r: seq<T>)
    ensures |r| <= |s|
  {
    if s == [] then [] else (if p(s[0]) then [s[0]] else []) + Filter(s[1..], p)
  }

  /** An element is kept exactly when it occurs in the input and satisfies the predicate. */
  lemma {:induction false} FilterMembership<T>(s: seq<T>, p: T -> bool, x: T)
    ensures x in Filter(s, p) <==> x in s && p(x)
  {
    if s != [] {
      FilterMembership(s[1..], p, x);
      assert s == [s[0]] + s[1..];
    }
  }

  /** Filtering distributes over concatenation. */
  lemma {:induction false} FilterAppend<T>(a: seq<T>, b: seq<T>, p: T -> bool)
    ensures Filter(a + b, p) == Filter(a, p) + Filter(b, p)
  {
    if a != [] {
      FilterAppend(a[1..], b, p);
      assert a == [a[0]] + a[1..];
      assert a + b == [a[0]] + (a[1..] + b);
      FilterCons(a[0], a[1..], p);
      FilterCons(a[0], a[1..] + b, p);
    } else {
      assert a + b == b;
    }
  }

  /** Filtering removes everything when no element satisfies the predicate. */
  lemma {:induction false} FilterNone<T>(s: seq<T>, p: T -> bool)
    requires forall i :: 0 <= i < |s| ==> !p(s[i])
    ensures Filter(s, p) == []
  {
    if s != [] {
      FilterNone(s[1..], p);
    }
  }

  /** `r` is obtained from `s` by deleting elements, keeping the order of the rest. */
  predicate IsSubsequence<T(==)>(r: seq<T>, s: seq<T>)
    decreases |s|
  {
    r == [] || (s != [] && ((r[0] == s[0] && IsSubsequence(r[1..], s[1..])) || IsSubsequence(r, s[1..])))
  }

  lemma {:induction false} FilterIsSubsequence<T>(s: seq<T>, p: T -> bool)
    ensures IsSubsequence(Filter(s, p), s)
  {
    if s != [] {
      FilterIsSubsequence(s[1..], p);
      var r := Filter(s, p);
      if p(s[0]) {
        assert r == [s[0]] + Filter(s[1..], p);
        assert r[0] == s[0] && r[1..] == Filter(s[1..], p);
      } else {
        assert r == Filter(s[1..], p);
      }
    }
  }

  lemma {:induction false} SubsequenceTransitive<T>(a: seq<T>, b: seq<T>, c: seq<T>)
    requires IsSubsequence(a, b) && IsSubsequence(b, c)
    ensures IsSubsequence(a, c)
    decreases |c|
  {
    if a != [] {
      if IsSubsequence(b, c[1..]) {
        SubsequenceTransitive(a, b, c[1..]);
      } else if a[0] == b[0] && IsSubsequence(a[1..], b[1..]) {
        SubsequenceTransitive(a[1..], b[1..], c[1..]);
      } else {
        SubsequenceTransitive(a, b[1..], c[1..]);
      }
    }
  }

  lemma {:induction false} SubsequenceReflexive<T>(s: seq<T>)
    ensures IsSubsequence(s, s)
  {
    if s != [] {
      SubsequenceReflexive(s[1..]);
    }
  }

  /** The keys never decrease along `s`. */
  ghost predicate SortedBy<T>(s: seq<T>, key: T -> int) {
    forall i, j :: 0 <= i < j < |s| ==> key(s[i]) <= key(s[j])
  }

  /** Inserts `x` in front of the first element whose key is not smaller. */
  function Insert<T>(x: T, s: seq<T>, key: T -> int): (r: seq<T>)
    ensures multiset(r) == multiset(s) + multiset{x}
    ensures |r| == |s| + 1
  {
    if s == [] || key(x) <= key(s[0]) then [x] + s
    else
      assert s == [s[0]] + s[1..];
      [s[0]] + Insert(x, s[1..], key)
  }

  /** Every element of a sorted sequence has a key at least that of its head. */
  lemma HeadIsLeast<T>(s: seq<T>, key: T -> int, y: T)
    requires SortedBy(s, key) && y in s
    ensures key(s[0]) <= key(y)
  {
    var j :| 0 <= j < |s| && s[j] == y;
  }

  /** Every key in `s` is at least `b`. */
  ghost predicate KeysAtLeast<T>(s: seq<T>, key: T -> int, b: int) {
    forall j :: 0 <= j < |s| ==> b <= key(s[j])
  }

  /** A head no larger than every key of a sorted tail keeps the sequence sorted. */
  lemma ConsSorted<T>(h: T, t: seq<T>, key: T -> int)
    requires SortedBy(t, key) && KeysAtLeast(t, key, key(h))
    ensures SortedBy([h] + t, key)
  {
    var r := [h] + t;
    forall i, j | 0 <= i < j < |r| ensures key(r[i]) <= key(r[j]) {
      assert r[j] == t[j - 1];
      if i > 0 {
        assert r[i] == t[i - 1];
      }
    }
  }

  /** Inserting an element whose key is at least `b` keeps every key at least `b`. */
  lemma InsertKeysAtLeast<T>(x: T, s: seq<T>, key: T -> int, b: int)
    requires KeysAtLeast(s, key, b) && b <= key(x)
    ensures KeysAtLeast(Insert(x, s, key), key, b)
  {
    var t := Insert(x, s, key);
    forall j | 0 <= j < |t| ensures b <= key(t[j]) {
      assert t[j] in multiset(t);
      if t[j] != x {
        assert t[j] in multiset(s);
        var i :| 0 <= i < |s| && s[i] == t[j];
      }
    }
  }

  lemma {:induction false} InsertSorted<T>(x: T, s: seq<T>, key: T -> int)
    requires SortedBy(s, key)
    ensures SortedBy(Insert(x, s, key), key)
  {
    if s == [] || key(x) <= key(s[0]) {
      assert KeysAtLeast(s, key, key(x)) by {
        forall j | 0 <= j < |s| ensures key(x) <= key(s[j]) {
          HeadIsLeast(s, key, s[j]);
        }
      }
      ConsSorted(x, s, key);
    } else {
      var t := Insert(x, s[1..], key);
      assert SortedBy(s[1..], key) by {
        forall i, j | 0 <= i < j < |s[1..]| ensures key(s[1..][i]) <= key(s[1..][j]) {
          assert s[1..][i] == s[i + 1] && s[1..][j] == s[j + 1];
        }
      }
      InsertSorted(x, s[1..], key);
      assert KeysAtLeast(s[1..], key, key(s[0])) by {
        forall j | 0 <= j < |s[1..]| ensures key(s[0]) <= key(s[1..][j]) {
          assert s[1..][j] == s[j + 1];
        }
      }
      InsertKeysAtLeast(x, s[1..], key, key(s[0]));
      ConsSorted(s[0], t, key);
    }
  }

  /** Stable insertion sort by `key`, ascending. */
  function Sort<T>(xs: seq<T>, key: T -> int): (r: seq<T>)
    ensures multiset(r) == multiset(xs)
    ensures |r| == |xs|
  {
    if xs == [] then []
    else
      assert xs == [xs[0]] + xs[1..];
      Insert(xs[0], Sort(xs[1..], key), key)
  }

  lemma {:induction false} SortSorted<T>(xs: seq<T>, key: T -> int)
    ensures SortedBy(Sort(xs, key), key)
  {
    if xs != [] {
      SortSorted(xs[1..], key);
      InsertSorted(xs[0], Sort(xs[1..], key), key);
    }
  }

  /** Selects the elements whose key is exactly `k`. */
  function HasKey<T>(key: T -> int, k: int): T -> bool {
    y => key(y) == k
  }

  /** Filtering a sequence given by its head and tail. */
  lemma FilterCons<T>(x: T, s: seq<T>, p: T -> bool)
    ensures Filter([x] + s, p) == (if p(x) then [x] else []) + Filter(s, p)
  {
    assert ([x] + s)[0] == x && ([x] + s)[1..] == s;
  }

  /** One step of `Insert` past a head with a smaller key, seen through a filter. */
  lemma InsertSkipFilter<T>(x: T, s: seq<T>, key: T -> int, p: T -> bool)
    requires s != [] && key(x) > key(s[0])
    ensures Filter(Insert(x, s, key), p)
         == (if p(s[0]) then [s[0]] else []) + Filter(Insert(x, s[1..], key), p)
  {
    assert Insert(x, s, key) == [s[0]] + Insert(x, s[1..], key);
    FilterCons(s[0], Insert(x, s[1..], key), p);
  }

  /** `Insert` in front of a head whose key is not smaller, seen through a filter. */
  lemma InsertFrontFilter<T>(x: T, s: seq<T>, key: T -> int, p: T -> bool)
    requires s == [] || key(x) <= key(s[0])
    ensures Filter(Insert(x, s, key), p) == (if p(x) then [x] else []) + Filter(s, p)
  {
    assert Insert(x, s, key) == [x] + s;
    FilterCons(x, s, p);
  }

  /** Two prefixes of which at most one is non-empty can be exchanged. */
  lemma SwapPrefixes<T>(a: seq<T>, b: seq<T>, r: seq<T>)
    requires a == [] || b == []
    ensures a + (b + r) == b + (a + r)
  {
    if a == [] {
      assert a + (b + r) == b + r == b + (a + r);
    } else {
      assert a + (b + r) == a + r == b + (a + r);
    }
  }

  lemma {:induction false} InsertStable<T>(x: T, s: seq<T>, key: T -> int, k: int)
    ensures Filter(Insert(x, s, key), HasKey(key, k))
         == (if key(x) == k then [x] else []) + Filter(s, HasKey(key, k))
  {
    var p := HasKey(key, k);
    if s == [] || key(x) <= key(s[0]) {
      InsertFrontFilter(x, s, key, p);
    } else {
      var hx: seq<T> := if p(x) then [x] else [];
      var h0: seq<T> := if p(s[0]) then [s[0]] else [];
      var rest := Filter(s[1..], p);
      InsertSkipFilter(x, s, key, p);
      InsertStable(x, s[1..], key, k);
      assert s == [s[0]] + s[1..];
      FilterCons(s[0], s[1..], p);
      // s[0] has a smaller key than x, so at most one of them is selected
      SwapPrefixes(h0, hx, rest);
    }
  }

  /** Elements with equal keys keep their relative order. */
  lemma {:induction false} SortStable<T>(xs: seq<T>, key: T -> int, k: int)
    ensures Filter(Sort(xs, key), HasKey(key, k)) == Filter(xs, HasKey(key, k))
  {
    if xs != [] {
      SortStable(xs[1..], key, k);
      InsertStable(xs[0], Sort(xs[1..], key), key, k);
      FilterCons(xs[0], xs[1..], HasKey(key, k));
      assert [xs[0]] + xs[1..] == xs;
    }
  }

  lemma {:induction false} InsertFilter<T>(x: T, s: seq<T>, key: T -> int, p: T -> bool)
    requires SortedBy(s, key)
    ensures Filter(Insert(x, s, key), p)
         == if p(x) then Insert(x, Filter(s, p), key) else Filter(s, p)
  {
    if s == [] || key(x) <= key(s[0]) {
      FilterCons(x, s, p);
      var f := Filter(s, p);
      if f != [] {
        FilterMembership(s, p, f[0]);
        HeadIsLeast(s, key, f[0]);
      }
    } else {
      var t := Insert(x, s[1..], key);
      assert SortedBy(s[1..], key);
      InsertFilter(x, s[1..], key, p);
      FilterCons(s[0], t, p);
      FilterCons(s[0], s[1..], p);
      assert [s[0]] + s[1..] == s;
      var f := Filter(s[1..], p);
      assert Insert(x, s, key) == [s[0]] + t;
      if p(s[0]) {
        assert Filter(s, p) == [s[0]] + f;
        assert Filter(Insert(x, s, key), p) == [s[0]] + Filter(t, p);
        if p(x) {
          assert ([s[0]] + f)[0] == s[0] && ([s[0]] + f)[1..] == f;
          assert Insert(x, [s[0]] + f, key) == [s[0]] + Insert(x, f, key);
        }
      } else {
        assert Filter(s, p) == f;
        assert Filter(Insert(x, s, key), p) == Filter(t, p);
      }
    }
  }

  /** Filtering after sorting equals sorting after filtering. */
  lemma {:induction false} FilterSortCommute<T>(xs: seq<T>, key: T -> int, p: T -> bool)
    ensures Filter(Sort(xs, key), p) == Sort(Filter(xs, p), key)
  {
    if xs != [] {
      var x, rest := xs[0], xs[1..];
      var sorted := Sort(rest, key);
      var f := Filter(rest, p);
      FilterSortCommute(rest, key, p);
      SortSorted(rest, key);
      InsertFilter(x, sorted, key, p);
      assert Sort(xs, key) == Insert(x, sorted, key);
      FilterCons(x, rest, p);
      assert [x] + rest == xs;
      if p(x) {
        assert Filter(xs, p) == [x] + f;
        assert ([x] + f)[0] == x && ([x] + f)[1..] == f;
        assert Sort([x] + f, key) == Insert(x, Sort(f, key), key);
      } else {
        assert Filter(xs, p) == f;
      }
    }
  }

  /** Sorting an already sorted sequence changes nothing. */
  lemma {:induction false} SortOfSorted<T>(xs: seq<T>, key: T -> int)
    requires SortedBy(xs, key)
    ensures Sort(xs, key) == xs
  {
    if xs != [] {
      assert SortedBy(xs[1..], key);
      SortOfSorted(xs[1..], key);
      assert xs == [xs[0]] + xs[1..];
    }
  }

  lemma SortIdempotent<T>(xs: seq<T>, key: T -> int)
    ensures Sort(Sort(xs, key), key) == Sort(xs, key)
  {
    SortSorted(xs, key);
    SortOfSorted(Sort(xs, key), key);
  }

  /** Filtering by a predicate and by its negation splits the sequence. */
  lemma {:induction false} FilterPartition<T>(s: seq<T>, p: T -> bool, q: T -> bool)
    requires forall x :: q(x) == !p(x)
    ensures |Filter(s, p)| + |Filter(s, q)| == |s|
    ensures multiset(Filter(s, p)) + multiset(Filter(s, q)) == multiset(s)
  {
    if s != [] {
      FilterPartition(s[1..], p, q);
      assert s == [s[0]] + s[1..];
    }
  }

  lemma {:induction false} FilterIdempotent<T>(s: seq<T>, p: T -> bool)
    ensures Filter(Filter(s, p), p) == Filter(s, p)
  {
    if s != [] {
      var f := Filter(s[1..], p);
      FilterIdempotent(s[1..], p);
      FilterCons(s[0], s[1..], p);
      assert [s[0]] + s[1..] == s;
      if p(s[0]) {
        assert Filter(s, p) == [s[0]] + f;
        FilterCons(s[0], f, p);
      } else {
        assert Filter(s, p) == f;
      }
    }
  }

  /** Filters by predicates that agree everywhere select the same elements. */
  lemma {:induction false} FilterCongruence<T>(s: seq<T>, p: T -> bool, q: T -> bool)
    requires forall x :: p(x) == q(x)
    ensures Filter(s, p) == Filter(s, q)
  {
    if s != [] {
      FilterCongruence(s[1..], p, q);
    }
  }

  /** A filter every element passes keeps the sequence as it is. */
  lemma {:induction false} FilterKeepsAll<T>(s: seq<T>, p: T -> bool)
    requires forall i :: 0 <= i < |s| ==> p(s[i])
    ensures Filter(s, p) == s
  {
    if s != [] {
      FilterKeepsAll(s[1..], p);
      assert s == [s[0]] + s[1..];
    }
  }

  /** The conjunction of two predicates. */
  function Both<T>(p: T -> bool, q: T -> bool): T -> bool {
    x => p(x) && q(x)
  }

  /** Two filters in a row are one filter by the conjunction. */
  lemma {:induction false} FilterFilter<T>(s: seq<T>, p: T -> bool, q: T -> bool)
    ensures Filter(Filter(s, p), q) == Filter(s, Both(p, q))
  {
    if s != [] {
      var f := Filter(s[1..], p);
      FilterFilter(s[1..], p, q);
      if p(s[0]) {
        assert Filter(s, p) == [s[0]] + f;
        FilterCons(s[0], f, q);
      } else {
        assert Filter(s, p) == f;
      }
    }
  }

  /** `xs.map(f)`. */
  function Map<T, U>(xs: seq<T>, f: T -> U): (r: seq<U>)
    ensures |r| == |xs|
    ensures forall i :: 0 <= i < |xs| ==> r[i] == f(xs[i])
  {
    if xs == [] then [] else [f(xs[0])] + Map(xs[1..], f)
  }

  lemma {:induction false} InsertMap<T>(x: T, s: seq<T>, key: T -> int, f: T -> T)
    requires forall y :: key(f(y)) == key(y)
    ensures Insert(f(x), Map(s, f), key) == Map(Insert(x, s, key), f)
  {
    if s != [] && key(x) > key(s[0]) {
      var t := Insert(x, s[1..], key);
      InsertMap(x, s[1..], key, f);
      assert Map(s, f) == [f(s[0])] + Map(s[1..], f);
      assert Map([s[0]] + t, f) == [f(s[0])] + Map(t, f);
    } else if s != [] {
      assert Map(s, f)[0] == f(s[0]);
    }
  }

  /** Sorting commutes with a change of the elements that keeps every key. */
  lemma {:induction false} SortMap<T>(xs: seq<T>, key: T -> int, f: T -> T)
    requires forall y :: key(f(y)) == key(y)
    ensures Sort(Map(xs, f), key) == Map(Sort(xs, key), f)
  {
    if xs != [] {
      SortMap(xs[1..], key, f);
      InsertMap(xs[0], Sort(xs[1..], key), key, f);
      assert Map(xs, f) == [f(xs[0])] + Map(xs[1..], f);
      assert Map(xs, f)[1..] == Map(xs[1..], f);
    }
  }

  // ------------------------------------------------------------- opposite orders

  /** The elements of `s` in the opposite order. */
  function Reverse<T>(s: seq<T>): (r: seq<T>)
    ensures |r| == |s| && forall i :: 0 <= i < |s| ==> r[i] == s[|s| - 1 - i]
  {
    if s == [] then [] else Reverse(s[1..]) + [s[0]]
  }

  lemma {:induction false} ReverseMultiset<T>(s: seq<T>)
    ensures multiset(Reverse(s)) == multiset(s)
  {
    if s != [] {
      ReverseMultiset(s[1..]);
      assert s == [s[0]] + s[1..];
    }
  }

  /** No two positions of `s` share a key. */
  predicate DistinctKeys<T>(s: seq<T>, key: T -> int) {
    forall i, j :: 0 <= i < j < |s| ==> key(s[i]) != key(s[j])
  }

  /** Among the elements of `m`, equal keys mean equal elements. */
  ghost predicate KeyDetermines<T>(m: multiset<T>, key: T -> int) {
    forall x, y :: x in m && y in m && key(x) == key(y) ==> x == y
  }

  lemma DistinctKeysDetermine<T>(s: seq<T>, key: T -> int)
    requires DistinctKeys(s, key)
    ensures KeyDetermines(multiset(s), key)
  {
    assert forall i, j :: 0 <= i < |s| && 0 <= j < |s| && key(s[i]) == key(s[j]) ==> i == j;
    forall x, y | x in multiset(s) && y in multiset(s) && key(x) == key(y) ensures x == y {
      var i :| 0 <= i < |s| && s[i] == x;
      var j :| 0 <= j < |s| && s[j] == y;
    }
  }

  /** Keys that determine the elements of a multiset determine those of any part of it. */
  lemma KeyDeterminesPart<T>(m: multiset<T>, n: multiset<T>, key: T -> int)
    requires n <= m && KeyDetermines(m, key)
    ensures KeyDetermines(n, key)
  {
  }

  /** Two sorted orders of one multiset, with keys determining elements, start with the same element. */
  lemma SortedHeads<T>(a: seq<T>, b: seq<T>, key: T -> int)
    requires a != [] && b != [] && SortedBy(a, key) && SortedBy(b, key)
    requires multiset(a) == multiset(b) && KeyDetermines(multiset(a), key)
    ensures a[0] == b[0]
  {
    assert a[0] in multiset(b) && b[0] in multiset(a);
    HeadIsLeast(b, key, a[0]);
    HeadIsLeast(a, key, b[0]);
  }

  /** Removing equal heads from equal multisets leaves equal multisets. */
  lemma TailsMultiset<T>(a: seq<T>, b: seq<T>)
    requires a != [] && b != [] && a[0] == b[0] && multiset(a) == multiset(b)
    ensures multiset(a[1..]) == multiset(b[1..]) && multiset(a[1..]) <= multiset(a)
  {
    assert a == [a[0]] + a[1..] && b == [b[0]] + b[1..];
    assert multiset(a) == multiset{a[0]} + multiset(a[1..]);
    assert multiset(b) == multiset{a[0]} + multiset(b[1..]);
    assert multiset(a[1..]) == multiset(a) - multiset{a[0]};
    assert multiset(b[1..]) == multiset(b) - multiset{a[0]};
  }

  /** Sequences with equal heads and equal tails are equal. */
  lemma HeadTailEqual<T>(a: seq<T>, b: seq<T>)
    requires a != [] && b != [] && a[0] == b[0] && a[1..] == b[1..]
    ensures a == b
  {
    assert a == [a[0]] + a[1..] && b == [b[0]] + b[1..];
  }

  /** The tail of a sorted sequence is sorted. */
  lemma SortedTail<T>(s: seq<T>, key: T -> int)
    requires s != [] && SortedBy(s, key)
    ensures SortedBy(s[1..], key)
  {
    forall i, j | 0 <= i < j < |s[1..]| ensures key(s[1..][i]) <= key(s[1..][j]) {
      assert s[1..][i] == s[i + 1] && s[1..][j] == s[j + 1];
    }
  }

  /** When keys determine elements there is only one sorted order of a multiset. */
  lemma {:induction false} SortedUnique<T>(a: seq<T>, b: seq<T>, key: T -> int)
    requires SortedBy(a, key) && SortedBy(b, key)
    requires multiset(a) == multiset(b) && KeyDetermines(multiset(a), key)
    ensures a == b
    decreases |a|
  {
    assert |a| == |multiset(a)| == |multiset(b)| == |b|;
    if a != [] {
      SortedHeads(a, b, key);
      TailsMultiset(a, b);
      KeyDeterminesPart(multiset(a), multiset(a[1..]), key);
      SortedTail(a, key);
      SortedTail(b, key);
      SortedUnique(a[1..], b[1..], key);
      HeadTailEqual(a, b);
    }
  }

  /** Reversing a sequence sorted by `key` sorts it by the negated key. */
  lemma ReverseSorted<T>(s: seq<T>, key: T -> int, neg: T -> int)
    requires SortedBy(s, key) && forall x :: neg(x) == -key(x)
    ensures SortedBy(Reverse(s), neg)
  {
    var r := Reverse(s);
    forall i, j | 0 <= i < j < |r| ensures neg(r[i]) <= neg(r[j]) {
      assert key(s[|s| - 1 - j]) <= key(s[|s| - 1 - i]);
    }
  }

  /** The negated key determines elements wherever the key does. */
  lemma NegatedKeyDetermines<T>(m: multiset<T>, key: T -> int, neg: T -> int)
    requires KeyDetermines(m, key) && forall x :: neg(x) == -key(x)
    ensures KeyDetermines(m, neg)
  {
    forall x, y | x in m && y in m && neg(x) == neg(y) ensures x == y {
      assert key(x) == key(y);
    }
  }

  /**
   * Without ties, sorting by the negated key is exactly the reverse of sorting
   * by the key: the two directions of a stable sort differ only on ties.
   */
  lemma SortOppositeKeys<T>(xs: seq<T>, key: T -> int, neg: T -> int)
    requires forall x :: neg(x) == -key(x)
    requires DistinctKeys(xs, key)
    ensures Sort(xs, neg) == Reverse(Sort(xs, key))
  {
    var a := Sort(xs, neg);
    var b := Reverse(Sort(xs, key));
    SortSorted(xs, neg);
    SortSorted(xs, key);
    ReverseSorted(Sort(xs, key), key, neg);
    ReverseMultiset(Sort(xs, key));
    DistinctKeysDetermine(xs, key);
    NegatedKeyDetermines(multiset(a), key, neg);
    SortedUnique(a, b, neg);
  }
}
