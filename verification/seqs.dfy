/** Sequence operations that the scripts get from pandas and Python built-ins:
    first-seen de-duplication (`Series.unique()`, `Counter(...).keys()`,
    `DataFrame.drop_duplicates()`), order-preserving filtering (boolean indexing) and
    sorting on a two-level integer key (`sort_values(by = [a, b])`). */
module Seqs {

  predicate NoDups<T(==)>(s: seq<T>)
  {
    forall i, j | 0 <= i < j < |s| :: s[i] != s[j]
  }

  /** A slice is its first element followed by the rest. */
  lemma SliceFront<T>(s: seq<T>, p: nat, e: nat)
    requires p < e <= |s|
    ensures s[p..e] == [s[p]] + s[p + 1..e]
  {
  }

  lemma SliceRest<T>(s: seq<T>, p: nat)
    requires p < |s|
    ensures s[p..] == [s[p]] + s[p + 1..]
  {
  }

  lemma SliceOfSuffix<T>(t: seq<T>, k: nat, lo: nat, hi: nat)
    requires lo <= hi && k + hi <= |t|
    ensures t[k..][lo..hi] == t[k + lo..k + hi]
  {
  }

  /** A suffix of a suffix is a suffix of the whole. */
  lemma DropThroughSuffix<T>(x: seq<T>, y: seq<T>, z: seq<T>, d: nat, e: nat, p: nat)
    requires d <= |x| && x[d..] == y && e <= |y| && y[e..] == z && p == d + e
    ensures x[p..] == z
  {
    assert |x[p..]| == |z|;
    forall k | 0 <= k < |z| ensures x[p..][k] == z[k] {
      assert z[k] == y[e + k] == x[d + e + k];
    }
  }

  /** A slice starting at `a` is a prefix of the suffix from `a`. */
  lemma SliceOfDrop<T>(x: seq<T>, y: seq<T>, z: seq<T>, a: nat, b: nat)
    requires a <= b <= |x| && x[a..] == y && y[0..b - a] == z
    ensures x[a..b] == z
  {
    forall k | 0 <= k < b - a ensures x[a..b][k] == z[k] {
      assert z[k] == y[k] == x[a + k];
    }
  }

  lemma PrefixOfAppend<T>(x: seq<T>, y: seq<T>)
    ensures (x + y)[0..|x|] == x
  {
  }

  lemma ConsAssoc<T>(x: T, a: seq<T>, b: seq<T>)
    ensures [x] + (a + b) == ([x] + a) + b
  {
  }

  /** The first components of a sequence of pairs: the keys of a dict's items, or the
      index column of a table's rows. */
  function Firsts<A, B>(ps: seq<(A, B)>): (r: seq<A>)
    ensures |r| == |ps| && forall i | 0 <= i < |ps| :: r[i] == ps[i].0
  {
    seq(|ps|, i requires 0 <= i < |ps| => ps[i].0)
  }

  /** Index of the first occurrence of `x` in `s`. */
  function IndexOf<T(==)>(s: seq<T>, x: T): (k: nat)
    requires x in s
    ensures k < |s| && s[k] == x && x !in s[..k]
  {
    if s[0] == x then 0
    else
      var k := 1 + IndexOf(s[1..], x);
      assert s[..k] == [s[0]] + s[1..][..k - 1];
      k
  }

  /** The distinct elements of `xs` in the order in which they are first seen. */
  function Dedup<T(==)>(xs: seq<T>): (r: seq<T>)
    ensures NoDups(r)
    ensures forall x | x in r :: x in xs
    ensures forall x | x in xs :: x in r
    ensures |r| <= |xs|
  {
    if |xs| == 0 then []
    else
      var d := Dedup(xs[..|xs| - 1]);
      if xs[|xs| - 1] in d then d else d + [xs[|xs| - 1]]
  }

  lemma IndexOfPrefix<T>(xs: seq<T>, n: nat, x: T)
    requires n <= |xs| && x in xs[..n]
    ensures IndexOf(xs, x) == IndexOf(xs[..n], x)
  {
    var k := IndexOf(xs[..n], x);
    assert xs[..k] == xs[..n][..k];
  }

  /** Dedup keeps first-seen order: earlier entries were seen first. */
  lemma {:induction false} DedupOrder<T>(xs: seq<T>)
    ensures forall i, j | 0 <= i < j < |Dedup(xs)| ::
      IndexOf(xs, Dedup(xs)[i]) < IndexOf(xs, Dedup(xs)[j])
  {
    if |xs| > 0 {
      var p := xs[..|xs| - 1];
      var d := Dedup(p);
      DedupOrder(p);
      forall y | y in d ensures IndexOf(xs, y) == IndexOf(p, y) {
        IndexOfPrefix(xs, |xs| - 1, y);
      }
      if xs[|xs| - 1] !in d {
        assert IndexOf(xs, xs[|xs| - 1]) == |xs| - 1;
      }
    }
  }

  /** Dedup of a sequence without repetitions is the sequence itself. */
  lemma {:induction false} DedupNoDups<T>(xs: seq<T>)
    requires NoDups(xs)
    ensures Dedup(xs) == xs
  {
    if |xs| > 0 {
      var p := xs[..|xs| - 1];
      DedupNoDups(p);
      assert xs[|xs| - 1] !in p;
      assert xs == p + [xs[|xs| - 1]];
    }
  }

  /** Boolean-mask filtering: the elements satisfying `p`, in their original order. */
  function Filter<T>(xs: seq<T>, p: T -> bool): (r: seq<T>)
    ensures |r| <= |xs|
    ensures forall x | x in r :: x in xs && p(x)
    ensures forall x | x in xs && p(x) :: x in r
    ensures multiset(r) <= multiset(xs)
  {
    if |xs| == 0 then []
    else
      var rest := Filter(xs[1..], p);
      assert xs == [xs[0]] + xs[1..];
      if p(xs[0]) then [xs[0]] + rest else rest
  }

  /** Filtering commutes with concatenation, so relative order is kept. */
  lemma {:induction false} FilterAppend<T>(xs: seq<T>, ys: seq<T>, p: T -> bool)
    ensures Filter(xs + ys, p) == Filter(xs, p) + Filter(ys, p)
  {
    if |xs| > 0 {
      assert (xs + ys)[1..] == xs[1..] + ys;
      FilterAppend(xs[1..], ys, p);
    } else {
      assert xs + ys == ys;
    }
  }

  /** Filtering looks at the first element, then at the rest. */
  lemma FilterCons<T>(x: T, xs: seq<T>, p: T -> bool)
    ensures Filter([x] + xs, p) == (if p(x) then [x] else []) + Filter(xs, p)
  {
    assert ([x] + xs)[1..] == xs;
  }

  lemma FilterHead<T>(xs: seq<T>, p: T -> bool)
    requires |xs| > 0
    ensures Filter(xs, p) == (if p(xs[0]) then [xs[0]] else []) + Filter(xs[1..], p)
  {
  }

  lemma {:induction false} FilterAll<T>(xs: seq<T>, p: T -> bool)
    requires forall x | x in xs :: p(x)
    ensures Filter(xs, p) == xs
  {
    if |xs| > 0 {
      FilterAll(xs[1..], p);
      assert xs == [xs[0]] + xs[1..];
    }
  }

  lemma {:induction false} FilterNone<T>(xs: seq<T>, p: T -> bool)
    requires forall x | x in xs :: !p(x)
    ensures Filter(xs, p) == []
  {
    if |xs| > 0 {
      FilterNone(xs[1..], p);
    }
  }

  /** Filtering a sequence without repetitions keeps its order and has no repetitions. */
  lemma {:induction false} FilterKeepsOrder<T>(xs: seq<T>, p: T -> bool)
    requires NoDups(xs)
    ensures NoDups(Filter(xs, p))
    ensures forall i, j | 0 <= i < j < |Filter(xs, p)| ::
      IndexOf(xs, Filter(xs, p)[i]) < IndexOf(xs, Filter(xs, p)[j])
  {
    if |xs| > 0 {
      var tail := xs[1..];
      FilterKeepsOrder(tail, p);
      forall y | y in tail ensures IndexOf(xs, y) == 1 + IndexOf(tail, y) {
        assert y != xs[0];
      }
      var f := Filter(xs, p);
      if p(xs[0]) {
        assert f == [xs[0]] + Filter(tail, p);
        forall i | 0 < i < |f| ensures f[i] != xs[0] {
          assert f[i] in tail;
        }
      }
    }
  }

  /** Filtering by two predicates that agree on the elements gives the same result. */
  lemma {:induction false} FilterSame<T>(xs: seq<T>, p: T -> bool, q: T -> bool)
    requires forall x | x in xs :: p(x) == q(x)
    ensures Filter(xs, p) == Filter(xs, q)
  {
    if |xs| > 0 {
      FilterSame(xs[1..], p, q);
    }
  }

  /** Number of elements satisfying `p`. */
  function Count<T>(xs: seq<T>, p: T -> bool): (n: nat)
    ensures n <= |xs|
  {
    if |xs| == 0 then 0 else (if p(xs[0]) then 1 else 0) + Count(xs[1..], p)
  }

  lemma {:induction false} FilterCount<T>(xs: seq<T>, p: T -> bool)
    ensures |Filter(xs, p)| == Count(xs, p)
  {
    if |xs| > 0 { FilterCount(xs[1..], p); }
  }

  /** Counting is the same on two orderings of the same elements. */
  lemma {:induction false} CountPerm<T>(a: seq<T>, b: seq<T>, p: T -> bool)
    requires multiset(a) == multiset(b)
    ensures Count(a, p) == Count(b, p)
    decreases |a|
  {
    if |a| > 0 {
      var x := a[0];
      assert x in multiset(b);
      var k :| 0 <= k < |b| && b[k] == x;
      var b' := b[..k] + b[k + 1..];
      assert b == b[..k] + [x] + b[k + 1..];
      assert a == [x] + a[1..];
      assert multiset(b) == multiset(b[..k]) + multiset{x} + multiset(b[k + 1..]);
      assert multiset(a) == multiset{x} + multiset(a[1..]);
      assert multiset(b') == multiset(b[..k]) + multiset(b[k + 1..]);
      assert multiset(a[1..]) == multiset(a) - multiset{x};
      assert multiset(b') == multiset(b) - multiset{x};
      CountPerm(a[1..], b', p);
      CountSplit(b[..k], x, b[k + 1..], p);
    }
  }

  lemma {:induction false} CountSplit<T>(l: seq<T>, x: T, r: seq<T>, p: T -> bool)
    ensures Count(l + [x] + r, p) == Count(l + r, p) + (if p(x) then 1 else 0)
  {
    if |l| > 0 {
      assert (l + [x] + r)[1..] == l[1..] + [x] + r;
      assert (l + r)[1..] == l[1..] + r;
      CountSplit(l[1..], x, r, p);
    } else {
      assert l + [x] + r == [x] + r;
      assert l + r == r;
    }
  }

  // ----- sorting on a two-level integer key -----

  type Key = (int, int)

  predicate KeyLe(a: Key, b: Key)
  {
    a.0 < b.0 || (a.0 == b.0 && a.1 <= b.1)
  }

  predicate SortedBy<T>(s: seq<T>, key: T -> Key)
  {
    forall i, j | 0 <= i < j < |s| :: KeyLe(key(s[i]), key(s[j]))
  }

  /** Insert `x` before the first element whose key is not smaller. */
  function Insert<T(==)>(x: T, s: seq<T>, key: T -> Key): (r: seq<T>)
    requires SortedBy(s, key)
    ensures SortedBy(r, key)
    ensures multiset(r) == multiset(s) + multiset{x}
    ensures |r| == |s| + 1
  {
    if |s| == 0 then [x]
    else if KeyLe(key(x), key(s[0])) then [x] + s
    else
      var rest := Insert(x, s[1..], key);
      InsertBehind(x, s, rest, key);
      [s[0]] + rest
  }

  /** The step of `Insert` that keeps the head: the head's key is not above any key of
      the rest with `x` inserted. */
  lemma InsertBehind<T>(x: T, s: seq<T>, rest: seq<T>, key: T -> Key)
    requires |s| > 0 && SortedBy(s, key) && !KeyLe(key(x), key(s[0]))
    requires SortedBy(rest, key) && multiset(rest) == multiset(s[1..]) + multiset{x}
    ensures SortedBy([s[0]] + rest, key)
    ensures multiset([s[0]] + rest) == multiset(s) + multiset{x}
  {
    forall i | 0 <= i < |rest| ensures KeyLe(key(s[0]), key(rest[i])) {
      assert rest[i] in multiset(rest);
      if rest[i] != x {
        assert rest[i] in s[1..];
        var j :| 0 <= j < |s[1..]| && s[1..][j] == rest[i];
        assert s[j + 1] == rest[i];
      }
    }
    var r := [s[0]] + rest;
    forall i, j | 0 <= i < j < |r| ensures KeyLe(key(r[i]), key(r[j])) {
      if i > 0 {
        assert r[i] == rest[i - 1] && r[j] == rest[j - 1];
      } else {
        assert r[j] == rest[j - 1];
      }
    }
    assert s == [s[0]] + s[1..];
  }

  /** A stable insertion sort on a two-level key; it stands for pandas `sort_values` and
      `sort_index` on one or two integer columns. */
  function SortBy<T(==)>(xs: seq<T>, key: T -> Key): (r: seq<T>)
    ensures SortedBy(r, key)
    ensures multiset(r) == multiset(xs)
    ensures |r| == |xs|
  {
    if |xs| == 0 then []
    else
      assert xs == [xs[0]] + xs[1..];
      Insert(xs[0], SortBy(xs[1..], key), key)
  }

  /** The elements whose key is `k`. */
  function HasKey<T>(key: T -> Key, k: Key): T -> bool
  {
    x => key(x) == k
  }

  lemma InsertFront<T>(x: T, s: seq<T>, key: T -> Key)
    requires SortedBy(s, key) && (|s| == 0 || KeyLe(key(x), key(s[0])))
    ensures Insert(x, s, key) == [x] + s
  {
  }

  lemma InsertStep<T>(x: T, s: seq<T>, key: T -> Key)
    requires SortedBy(s, key) && |s| > 0 && !KeyLe(key(x), key(s[0]))
    ensures Insert(x, s, key) == [s[0]] + Insert(x, s[1..], key)
  {
  }

  /** Inserting `x` puts it in front of every element of its own key. */
  lemma {:induction false} InsertStable<T>(x: T, s: seq<T>, key: T -> Key, k: Key)
    requires SortedBy(s, key)
    ensures Filter(Insert(x, s, key), HasKey(key, k))
            == (if key(x) == k then [x] else []) + Filter(s, HasKey(key, k))
  {
    var p := HasKey(key, k);
    if |s| == 0 || KeyLe(key(x), key(s[0])) {
      InsertFront(x, s, key);
      FilterCons(x, s, p);
    } else {
      var rest := Insert(x, s[1..], key);
      InsertStep(x, s, key);
      InsertStable(x, s[1..], key, k);
      FilterCons(s[0], rest, p);
      FilterHead(s, p);
      SwapEmpty(if p(s[0]) then [s[0]] else [], if key(x) == k then [x] else [], Filter(s[1..], p));
    }
  }

  lemma SwapEmpty<T>(h: seq<T>, f: seq<T>, r: seq<T>)
    requires h == [] || f == []
    ensures h + (f + r) == f + (h + r)
  {
    if h == [] {
      assert h + (f + r) == f + r && h + r == r;
    } else {
      assert f + r == r && f + (h + r) == h + r;
    }
  }

  /** The sort is stable: the elements of any one key come out in their input order. */
  lemma {:induction false} SortStable<T>(xs: seq<T>, key: T -> Key, k: Key)
    ensures Filter(SortBy(xs, key), HasKey(key, k)) == Filter(xs, HasKey(key, k))
  {
    if |xs| > 0 {
      SortStable(xs[1..], key, k);
      InsertStable(xs[0], SortBy(xs[1..], key), key, k);
      FilterHead(xs, HasKey(key, k));
    }
  }

  /** A sequence that is already in key order comes back unchanged. */
  lemma {:induction false} SortSortedIdentity<T>(xs: seq<T>, key: T -> Key)
    requires SortedBy(xs, key)
    ensures SortBy(xs, key) == xs
  {
    if |xs| > 0 {
      SortSortedIdentity(xs[1..], key);
      assert xs == [xs[0]] + xs[1..];
    }
  }

  /** Filtering a sorted sequence leaves it sorted. */
  lemma {:induction false} FilterSorted<T>(xs: seq<T>, p: T -> bool, key: T -> Key)
    requires SortedBy(xs, key)
    ensures SortedBy(Filter(xs, p), key)
  {
    if |xs| > 0 {
      FilterSorted(xs[1..], p, key);
      var r := Filter(xs[1..], p);
      forall i | 0 <= i < |r| ensures KeyLe(key(xs[0]), key(r[i])) {
        assert r[i] in xs[1..];
        var j :| 0 <= j < |xs[1..]| && xs[1..][j] == r[i];
        assert xs[j + 1] == r[i];
      }
    }
  }
}
