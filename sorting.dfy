/** Python's `sorted` on lists of str, with and without `key=` (logpuzzle.py:49-52).
    Strings compare as Python compares str: by code point, position by position, a
    proper prefix first. `sorted` is stable; it is specified here as insertion of each
    element in turn before the first element whose key is not smaller. */
module Sorting {
  import opened Seqs

  /** Python's `a < b` on str. */
  predicate LexLess(a: string, b: string)
    decreases |a|
  {
    |b| > 0 && (|a| == 0 || a[0] < b[0] || (a[0] == b[0] && LexLess(a[1..], b[1..])))
  }

  /** Python's `a <= b` on str. */
  predicate LexLe(a: string, b: string) {
    a == b || LexLess(a, b)
  }

  lemma {:induction false} LexLessIrreflexive(a: string)
    ensures !LexLess(a, a)
  {
    if |a| > 0 {
      LexLessIrreflexive(a[1..]);
    }
  }

  lemma {:induction false} LexLessTransitive(a: string, b: string, c: string)
    requires LexLess(a, b) && LexLess(b, c)
    ensures LexLess(a, c)
    decreases |a|
  {
    if |a| > 0 && a[0] == b[0] && b[0] == c[0] {
      LexLessTransitive(a[1..], b[1..], c[1..]);
    }
  }

  lemma {:induction false} LexLessTrichotomy(a: string, b: string)
    requires a != b
    ensures LexLess(a, b) || LexLess(b, a)
    decreases |a|
  {
    if |a| > 0 && |b| > 0 && a[0] == b[0] {
      assert a == [a[0]] + a[1..] && b == [b[0]] + b[1..];
      LexLessTrichotomy(a[1..], b[1..]);
    }
  }

  lemma LexLessAsymmetric(a: string, b: string)
    requires LexLess(a, b)
    ensures !LexLess(b, a)
  {
    if LexLess(b, a) {
      LexLessTransitive(a, b, a);
      LexLessIrreflexive(a);
    }
  }

  /** Python's `<=` on str is a total order. */
  lemma LexLeTotalOrder(a: string, b: string, c: string)
    ensures LexLe(a, b) || LexLe(b, a)
    ensures LexLe(a, b) && LexLe(b, a) ==> a == b
    ensures LexLe(a, b) && LexLe(b, c) ==> LexLe(a, c)
  {
    if a != b {
      LexLessTrichotomy(a, b);
      if LexLess(a, b) {
        LexLessAsymmetric(a, b);
      }
    }
    if LexLess(a, b) && LexLess(b, c) {
      LexLessTransitive(a, b, c);
    }
  }

  /** A common prefix does not change how two strings compare. */
  lemma {:induction false} LexLessCommonPrefix(p: string, a: string, b: string)
    ensures LexLess(p + a, p + b) <==> LexLess(a, b)
    decreases |p|
  {
    if |p| > 0 {
      assert (p + a)[1..] == p[1..] + a && (p + b)[1..] == p[1..] + b;
      LexLessCommonPrefix(p[1..], a, b);
    } else {
      assert p + a == a && p + b == b;
    }
  }

  /** The key `sorted` uses when no `key=` is given. */
  function Identity(u: string): (v: string) {
    u
  }

  /** Insert x before the first element of t whose key is not smaller than x's key. */
  function Insert(x: string, t: seq<string>, key: string -> string): (r: seq<string>)
    ensures |r| == |t| + 1
    ensures multiset(r) == multiset(t) + multiset{x}
  {
    if t == [] then [x]
    else if !LexLess(key(t[0]), key(x)) then [x] + t
    else
      assert t == [t[0]] + t[1..];
      [t[0]] + Insert(x, t[1..], key)
  }

  /** `sorted(s, key=key)`. */
  function Sorted(s: seq<string>, key: string -> string): (r: seq<string>)
    ensures |r| == |s|
    ensures multiset(r) == multiset(s)
  {
    if s == [] then []
    else
      assert s == [s[0]] + s[1..];
      Insert(s[0], Sorted(s[1..], key), key)
  }

  /** The keys of s never decrease. */
  ghost predicate IsSortedBy(s: seq<string>, key: string -> string) {
    forall i, j :: 0 <= i < j < |s| ==> LexLe(key(s[i]), key(s[j]))
  }

  /** The elements of s whose key is k, in the order s has them. */
  function KeyFilter(s: seq<string>, key: string -> string, k: string): (r: seq<string>)
  {
    if s == [] then []
    else if key(s[0]) == k then [s[0]] + KeyFilter(s[1..], key, k)
    else KeyFilter(s[1..], key, k)
  }

  /** KeyFilter keeps exactly the elements whose key is k. */
  lemma {:induction false} KeyFilterElements(s: seq<string>, key: string -> string, k: string, y: string)
    ensures y in KeyFilter(s, key, k) <==> y in s && key(y) == k
  {
    if s != [] {
      KeyFilterElements(s[1..], key, k, y);
      assert s == [s[0]] + s[1..];
    }
  }

  lemma ConsSorted(a: string, t: seq<string>, key: string -> string)
    requires IsSortedBy(t, key)
    requires forall y :: y in t ==> LexLe(key(a), key(y))
    ensures IsSortedBy([a] + t, key)
  {
    var r := [a] + t;
    forall i, j | 0 <= i < j < |r|
      ensures LexLe(key(r[i]), key(r[j]))
    {
      if i == 0 {
        assert r[j] == t[j - 1] && t[j - 1] in t;
      } else {
        assert r[i] == t[i - 1] && r[j] == t[j - 1];
      }
    }
  }

  lemma {:induction false} InsertKeepsSorted(x: string, t: seq<string>, key: string -> string)
    requires IsSortedBy(t, key)
    ensures IsSortedBy(Insert(x, t, key), key)
  {
    if t == [] {
    } else if !LexLess(key(t[0]), key(x)) {
      LexLeTotalOrder(key(x), key(t[0]), key(t[0]));
      forall y | y in t
        ensures LexLe(key(x), key(y))
      {
        var j :| 0 <= j < |t| && t[j] == y;
        if j > 0 {
          LexLeTotalOrder(key(x), key(t[0]), key(y));
        }
      }
      ConsSorted(x, t, key);
    } else {
      var rest := Insert(x, t[1..], key);
      InsertKeepsSorted(x, t[1..], key);
      forall y | y in rest
        ensures LexLe(key(t[0]), key(y))
      {
        assert y in multiset(rest);
        if y != x {
          assert y in t[1..];
          var j :| 0 <= j < |t[1..]| && t[1..][j] == y;
          assert t[j + 1] == y;
        }
      }
      ConsSorted(t[0], rest, key);
    }
  }

  /** `sorted` returns its input in non-decreasing order of key. */
  lemma {:induction false} SortedIsSorted(s: seq<string>, key: string -> string)
    ensures IsSortedBy(Sorted(s, key), key)
  {
    if s != [] {
      SortedIsSorted(s[1..], key);
      InsertKeepsSorted(s[0], Sorted(s[1..], key), key);
    }
  }

  /** The elements of key k in t, with x among them in front if its key is k. */
  function FilterWith(x: string, t: seq<string>, key: string -> string, k: string): (r: seq<string>) {
    if key(x) == k then [x] + KeyFilter(t, key, k) else KeyFilter(t, key, k)
  }

  /** Inserting x puts it before every element of t that has its key. */
  lemma {:induction false} InsertFilter(x: string, t: seq<string>, key: string -> string, k: string)
    ensures KeyFilter(Insert(x, t, key), key, k) == FilterWith(x, t, key, k)
    decreases |t|, 1
  {
    if t == [] {
      assert [x][1..] == [];
    } else if !LexLess(key(t[0]), key(x)) {
      assert ([x] + t)[1..] == t;
    } else {
      InsertFilterBehind(x, t, key, k);
    }
  }

  lemma {:induction false} InsertFilterBehind(x: string, t: seq<string>, key: string -> string, k: string)
    requires t != [] && LexLess(key(t[0]), key(x))
    ensures KeyFilter(Insert(x, t, key), key, k) == FilterWith(x, t, key, k)
    decreases |t|, 0
  {
    LexLessIrreflexive(key(x));
    var rest := Insert(x, t[1..], key);
    InsertFilter(x, t[1..], key, k);
    assert Insert(x, t, key) == [t[0]] + rest;
    assert ([t[0]] + rest)[1..] == rest;
  }

  /** `sorted` is stable: the elements that share a key keep their relative order. */
  lemma {:induction false} SortedIsStable(s: seq<string>, key: string -> string, k: string)
    ensures KeyFilter(Sorted(s, key), key, k) == KeyFilter(s, key, k)
  {
    if s != [] {
      SortedIsStable(s[1..], key, k);
      InsertFilter(s[0], Sorted(s[1..], key), key, k);
    }
  }

  lemma FirstIsLeast(b: seq<string>, key: string -> string, y: string)
    requires IsSortedBy(b, key) && y in b
    ensures LexLe(key(b[0]), key(y))
  {
    var j :| 0 <= j < |b| && b[j] == y;
    if j > 0 {
      assert LexLe(key(b[0]), key(b[j]));
    }
  }

  /** Two lists in key order that hold the same elements of every key in the same
      order are the same list. */
  lemma {:induction false} SortedStableIsUnique(a: seq<string>, b: seq<string>, key: string -> string)
    requires IsSortedBy(a, key) && IsSortedBy(b, key)
    requires forall k :: KeyFilter(a, key, k) == KeyFilter(b, key, k)
    ensures a == b
    decreases |a| + |b|
  {
    if a == [] || b == [] {
      if a != [] {
        KeyFilterElements(a, key, key(a[0]), a[0]);
        KeyFilterElements(b, key, key(a[0]), a[0]);
      } else if b != [] {
        KeyFilterElements(b, key, key(b[0]), b[0]);
        KeyFilterElements(a, key, key(b[0]), b[0]);
      }
    } else {
      var ka, kb := key(a[0]), key(b[0]);
      assert KeyFilter(a, key, ka)[0] == a[0];
      assert KeyFilter(b, key, kb)[0] == b[0];
      assert KeyFilter(b, key, ka) == KeyFilter(a, key, ka);
      assert KeyFilter(a, key, kb) == KeyFilter(b, key, kb);
      KeyFilterElements(a, key, ka, a[0]);
      KeyFilterElements(b, key, ka, a[0]);
      KeyFilterElements(b, key, kb, b[0]);
      KeyFilterElements(a, key, kb, b[0]);
      FirstIsLeast(b, key, a[0]);
      FirstIsLeast(a, key, b[0]);
      LexLeTotalOrder(ka, kb, kb);
      assert a[0] == b[0];
      var a', b' := a[1..], b[1..];
      assert IsSortedBy(a', key) by {
        forall i, j | 0 <= i < j < |a'| ensures LexLe(key(a'[i]), key(a'[j])) {
          assert a'[i] == a[i + 1] && a'[j] == a[j + 1];
        }
      }
      assert IsSortedBy(b', key) by {
        forall i, j | 0 <= i < j < |b'| ensures LexLe(key(b'[i]), key(b'[j])) {
          assert b'[i] == b[i + 1] && b'[j] == b[j + 1];
        }
      }
      forall k
        ensures KeyFilter(a', key, k) == KeyFilter(b', key, k)
      {
        assert KeyFilter(a, key, k) == KeyFilter(b, key, k);
        if k == ka {
          assert KeyFilter(a, key, k) == [a[0]] + KeyFilter(a', key, k);
          assert KeyFilter(b, key, k) == [b[0]] + KeyFilter(b', key, k);
          assert KeyFilter(a', key, k) == KeyFilter(a, key, k)[1..];
          assert KeyFilter(b', key, k) == KeyFilter(b, key, k)[1..];
        } else {
          assert key(b[0]) != k;
          assert KeyFilter(a', key, k) == KeyFilter(a, key, k);
          assert KeyFilter(b', key, k) == KeyFilter(b, key, k);
        }
      }
      SortedStableIsUnique(a', b', key);
      assert a == [a[0]] + a' && b == [b[0]] + b';
    }
  }

  /** Sorted is the one stable sort: any list that is in key order and keeps, for every
      key, the input's elements of that key in their input order, is Sorted(s, key).
      So it is what any stable sort, Python's included, returns. */
  lemma StableSortIsSorted(s: seq<string>, r: seq<string>, key: string -> string)
    requires IsSortedBy(r, key)
    requires forall k :: KeyFilter(r, key, k) == KeyFilter(s, key, k)
    ensures r == Sorted(s, key)
  {
    SortedIsSorted(s, key);
    forall k
      ensures KeyFilter(r, key, k) == KeyFilter(Sorted(s, key), key, k)
    {
      SortedIsStable(s, key, k);
    }
    SortedStableIsUnique(r, Sorted(s, key), key);
  }

  /** Sorting a list that is already in key order leaves it unchanged. */
  lemma {:induction false} SortedOfSortedIsSame(s: seq<string>, key: string -> string)
    requires IsSortedBy(s, key)
    ensures Sorted(s, key) == s
  {
    if s != [] {
      assert IsSortedBy(s[1..], key) by {
        forall i, j | 0 <= i < j < |s[1..]|
          ensures LexLe(key(s[1..][i]), key(s[1..][j]))
        {
          assert s[1..][i] == s[i + 1] && s[1..][j] == s[j + 1];
        }
      }
      SortedOfSortedIsSame(s[1..], key);
      if |s| > 1 {
        assert LexLe(key(s[0]), key(s[1]));
        LexLessIrreflexive(key(s[0]));
        if LexLess(key(s[0]), key(s[1])) {
          LexLessAsymmetric(key(s[0]), key(s[1]));
        }
      }
      assert s == [s[0]] + s[1..];
    }
  }

  /** Sorting twice is sorting once. */
  lemma SortedIsIdempotent(s: seq<string>, key: string -> string)
    ensures Sorted(Sorted(s, key), key) == Sorted(s, key)
  {
    SortedIsSorted(s, key);
    SortedOfSortedIsSame(Sorted(s, key), key);
  }

  /** Without a key, a sorted list of distinct strings is strictly increasing. */
  lemma StrictlyIncreasing(s: seq<string>)
    requires Distinct(s)
    ensures forall i, j :: 0 <= i < j < |Sorted(s, Identity)| ==>
      LexLess(Sorted(s, Identity)[i], Sorted(s, Identity)[j])
  {
    var r := Sorted(s, Identity);
    SortedIsSorted(s, Identity);
    DistinctPermutation(s, r);
    forall i, j | 0 <= i < j < |r|
      ensures LexLess(r[i], r[j])
    {
      assert LexLe(Identity(r[i]), Identity(r[j]));
    }
  }
}
