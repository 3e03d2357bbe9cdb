/** `[...xs].sort((a, b) => key(b) - key(a)).slice(0, n)`: a copy sorted by a
    numeric key, largest first, then truncated. Array.prototype.sort is stable
    (ECMA-262 since the 2019 edition), so the model is a stable insertion sort. */
module Sorting {
  import opened Seqs

  predicate SortedDesc<T>(s: seq<T>, key: T -> int)
  {
    forall i, j :: 0 <= i < j < |s| ==> key(s[i]) >= key(s[j])
  }

  /** Inserts `x` in front of the first element whose key is not larger. */
  function InsertDesc<T(==)>(x: T, s: seq<T>, key: T -> int): (r: seq<T>)
    requires SortedDesc(s, key)
    ensures SortedDesc(r, key)
    ensures multiset(r) == multiset(s) + multiset{x}
  {
    if s == [] || key(x) >= key(s[0]) then [x] + s
    else
      var r' := InsertDesc(x, s[1..], key);
      assert s == [s[0]] + s[1..];
      HeadBound(x, s, key, r');
      [s[0]] + r'
  }

  lemma HeadBound<T>(x: T, s: seq<T>, key: T -> int, r: seq<T>)
    requires s != [] && SortedDesc(s, key) && key(x) < key(s[0])
    requires SortedDesc(r, key) && multiset(r) == multiset(s[1..]) + multiset{x}
    ensures SortedDesc([s[0]] + r, key)
  {
    forall j | 0 <= j < |r| ensures key(r[j]) <= key(s[0]) {
      assert r[j] in multiset(r);
      if r[j] != x {
        assert r[j] in multiset(s[1..]);
        var k :| 0 <= k < |s[1..]| && s[1..][k] == r[j];
        assert s[k + 1] == r[j];
      }
    }
  }

  /** The sort, comparator `(a, b) => key(b) - key(a)`. */
  function SortDesc<T(==)>(s: seq<T>, key: T -> int): (r: seq<T>)
    ensures SortedDesc(r, key)
    ensures multiset(r) == multiset(s)
  {
    if s == [] then []
    else
      assert s == [s[0]] + s[1..];
      InsertDesc(s[0], SortDesc(s[1..], key), key)
  }

  /** The elements whose key is `k`. */
  function KeyIs<T>(key: T -> int, k: int): T -> bool
  {
    x => key(x) == k
  }

  /** Filtering past a front element that `p` cannot share with `x`. */
  lemma FilterPastFront<T(!new)>(first: T, x: T, rest: seq<T>, r: seq<T>, p: T -> bool)
    requires !(p(first) && p(x))
    requires Filter(r, p) == (if p(x) then [x] else []) + Filter(rest, p)
    ensures Filter([first] + r, p) == (if p(x) then [x] else []) + Filter([first] + rest, p)
  {
    FilterCons(first, r, p);
    FilterCons(first, rest, p);
  }

  /** Inserting `x` puts it before every element with the same key. */
  lemma {:induction false} InsertDescStable<T(!new)>(x: T, s: seq<T>, key: T -> int, k: int)
    requires SortedDesc(s, key)
    ensures Filter(InsertDesc(x, s, key), KeyIs(key, k)) == (if key(x) == k then [x] else []) + Filter(s, KeyIs(key, k))
  {
    var p := KeyIs(key, k);
    if s == [] || key(x) >= key(s[0]) {
      FilterCons(x, s, p);
    } else {
      var first, rest := s[0], s[1..];
      assert s == [first] + rest;
      InsertDescStable(x, rest, key, k);
      FilterPastFront(first, x, rest, InsertDesc(x, rest, key), p);
    }
  }

  /** The sort is stable: the elements sharing any one key keep their order. */
  lemma {:induction false} SortDescStable<T(!new)>(s: seq<T>, key: T -> int, k: int)
    ensures Filter(SortDesc(s, key), KeyIs(key, k)) == Filter(s, KeyIs(key, k))
  {
    if s != [] {
      assert s == [s[0]] + s[1..];
      SortDescStable(s[1..], key, k);
      InsertDescStable(s[0], SortDesc(s[1..], key), key, k);
      FilterCons(s[0], s[1..], KeyIs(key, k));
    }
  }

  /** The sorted copy truncated to its first `n` elements: the `n` elements
      with the largest keys, largest first. Whatever is left out has a key no
      larger than any key kept. */
  function Top<T(==)>(s: seq<T>, key: T -> int, n: nat): (top: seq<T>)
    ensures |top| == Min(n, |s|)
    ensures SortedDesc(top, key)
    ensures multiset(top) <= multiset(s)
    ensures forall x, y :: x in multiset(s) - multiset(top) && y in top ==> key(x) <= key(y)
  {
    var r := SortDesc(s, key);
    var m := Min(n, |r|);
    assert r == r[..m] + r[m..];
    TopBound(s, r, m, key);
    r[..m]
  }

  lemma TopBound<T>(s: seq<T>, r: seq<T>, m: nat, key: T -> int)
    requires m <= |r| && SortedDesc(r, key) && multiset(r) == multiset(s)
    ensures forall x, y :: x in multiset(s) - multiset(r[..m]) && y in r[..m] ==> key(x) <= key(y)
  {
    assert r == r[..m] + r[m..];
    assert multiset(s) - multiset(r[..m]) == multiset(r[m..]);
    forall x, y | x in multiset(r[m..]) && y in r[..m] ensures key(x) <= key(y) {
      var i :| 0 <= i < |r[m..]| && r[m..][i] == x;
      var j :| 0 <= j < m && r[..m][j] == y;
      assert r[m + i] == x && r[j] == y;
    }
  }
}
