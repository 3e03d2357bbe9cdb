/** Counting and grouping records by a key, as the views do with `reduce` and
    `forEach` over an accumulator object: `acc[k] = (acc[k] || 0) + 1` and
    `(acc[k] ||= []).push(x)`. */
module Tally {
  import opened Seqs

  /** The key of every element, in order. */
  function Project<T, K>(s: seq<T>, key: T -> K): (ks: seq<K>)
    ensures |ks| == |s|
    ensures forall i :: 0 <= i < |s| ==> ks[i] == key(s[i])
  {
    if s == [] then [] else Project(s[..|s| - 1], key) + [key(s[|s| - 1])]
  }

  lemma {:induction false} ProjectConcat<T, K>(a: seq<T>, b: seq<T>, key: T -> K)
    ensures Project(a + b, key) == Project(a, key) + Project(b, key)
  {
  }

  /** The elements of `s` whose key is `k`, in order. */
  function WithKey<T(==), K(==)>(s: seq<T>, key: T -> K, k: K): (r: seq<T>)
    ensures forall i :: 0 <= i < |r| ==> key(r[i]) == k
  {
    Filter(s, x => key(x) == k)
  }

  lemma WithKeySnoc<T(!new), K>(s: seq<T>, x: T, key: T -> K, k: K)
    ensures WithKey(s + [x], key, k) == if key(x) == k then WithKey(s, key, k) + [x] else WithKey(s, key, k)
  {
    FilterSnoc(s, x, y => key(y) == k);
  }

  /** WithKey keeps exactly the elements with key `k`, each as often as it
      occurs, in order; their number is the multiplicity of `k` among the keys. */
  lemma WithKeyIsGroup<T(!new), K(!new)>(s: seq<T>, key: T -> K, k: K)
    ensures IsSubsequence(WithKey(s, key, k), s)
    ensures forall x :: multiset(WithKey(s, key, k))[x] == if key(x) == k then multiset(s)[x] else 0
    ensures forall x :: x in WithKey(s, key, k) <==> x in s && key(x) == k
    ensures |WithKey(s, key, k)| == multiset(Project(s, key))[k]
  {
    FilterIsSubsequence(s, x => key(x) == k);
    FilterCount(s, x => key(x) == k);
    WithKeyCount(s, key, k);
  }

  lemma {:induction false} WithKeyCount<T(!new), K(!new)>(s: seq<T>, key: T -> K, k: K)
    ensures |WithKey(s, key, k)| == multiset(Project(s, key))[k]
  {
    if s != [] {
      var init, last := s[..|s| - 1], s[|s| - 1];
      assert s == init + [last];
      WithKeyCount(init, key, k);
      WithKeySnoc(init, last, key, k);
      ProjectSnoc(init, last, key);
      assert multiset(Project(s, key)) == multiset(Project(init, key)) + multiset{key(last)};
    }
  }

  predicate NoDuplicates<K(==)>(s: seq<K>)
  {
    forall i, j :: 0 <= i < j < |s| ==> s[i] != s[j]
  }

  /** In a sequence without duplicates every value occurs at most once. */
  lemma {:induction false} NoDuplicatesCountsOnce<K>(s: seq<K>, x: K)
    requires NoDuplicates(s)
    ensures multiset(s)[x] <= 1
  {
    if s != [] {
      assert s == [s[0]] + s[1..];
      NoDuplicatesCountsOnce(s[1..], x);
      if x == s[0] {
        assert x !in s[1..];
      }
    }
  }

  /** A value found at two different positions occurs at least twice. */
  lemma TwiceCounted<K>(s: seq<K>, i: nat, j: nat)
    requires i < j < |s| && s[i] == s[j]
    ensures multiset(s)[s[i]] >= 2
  {
    assert s == s[..j] + s[j..];
    assert s[i] in s[..j];
    assert s[j] == s[j..][0];
  }

  /** The distinct values of `s`, in order of first occurrence (the order in
      which an accumulator object first receives each key). */
  function Distinct<K(==,!new)>(s: seq<K>): (r: seq<K>)
    ensures NoDuplicates(r)
    ensures forall k :: k in r <==> k in s
  {
    if s == [] then []
    else
      var d := Distinct(s[..|s| - 1]);
      var last := s[|s| - 1];
      assert s == s[..|s| - 1] + [last];
      if last in d then d else d + [last]
  }

  /** Each value occurring in `ks`, mapped to the number of times it occurs. */
  function Occurrences<K(==)>(ks: seq<K>): map<K, nat>
  {
    map k | k in ks :: multiset(ks)[k]
  }

  /** The sum of `m` over the keys listed in `ds`. */
  function Total<K>(m: map<K, nat>, ds: seq<K>): int
    requires forall d :: d in ds ==> d in m
  {
    if ds == [] then 0 else m[ds[0]] + Total(m, ds[1..])
  }

  lemma {:induction false} TotalSnoc<K>(m: map<K, nat>, ds: seq<K>, d: K)
    requires forall e :: e in ds + [d] ==> e in m
    ensures Total(m, ds + [d]) == Total(m, ds) + m[d]
  {
    if ds != [] {
      assert (ds + [d])[1..] == ds[1..] + [d];
      TotalSnoc(m, ds[1..], d);
    }
  }

  /** Raising the entry for `x` by one raises the total by one when `x` is
      listed (once), and leaves it alone otherwise. */
  lemma {:induction false} TotalBump<K>(m1: map<K, nat>, m2: map<K, nat>, ds: seq<K>, x: K)
    requires NoDuplicates(ds)
    requires forall d :: d in ds ==> d in m1 && d in m2 && m1[d] == m2[d] + (if d == x then 1 else 0)
    ensures Total(m1, ds) == Total(m2, ds) + (if x in ds then 1 else 0)
  {
    if ds != [] {
      assert ds == [ds[0]] + ds[1..];
      assert ds[0] == x ==> x !in ds[1..];
      TotalBump(m1, m2, ds[1..], x);
    }
  }

  lemma OccurrencesSnoc<K>(ks: seq<K>, x: K)
    ensures Occurrences(ks + [x]) == Occurrences(ks)[x := if x in ks then multiset(ks)[x] + 1 else 1]
  {
    assert multiset(ks + [x]) == multiset(ks) + multiset{x};
  }

  /** The counts of the distinct keys add up to the number of keys: no key is
      counted twice and none is missed. */
  lemma {:induction false} OccurrencesTotal<K(!new)>(ks: seq<K>)
    ensures Total(Occurrences(ks), Distinct(ks)) == |ks|
  {
    if ks != [] {
      var init, x := ks[..|ks| - 1], ks[|ks| - 1];
      assert ks == init + [x];
      OccurrencesTotal(init);
      var m1, m2 := Occurrences(ks), Occurrences(init);
      var d := Distinct(init);
      OccurrencesSnoc(init, x);
      if x in init {
        assert Distinct(ks) == d;
        TotalBump(m1, m2, d, x);
      } else {
        assert Distinct(ks) == d + [x];
        TotalSnoc(m1, d, x);
        TotalBump(m1, m2, d, x);
      }
    }
  }

  /** The keys counted are exactly the keys of the elements. */
  lemma OccurrencesKeys<T, K>(s: seq<T>, key: T -> K)
    ensures forall k :: k in Occurrences(Project(s, key)) <==> exists x :: x in s && key(x) == k
  {
    var ks := Project(s, key);
    forall k | k in ks ensures exists x :: x in s && key(x) == k {
      var i :| 0 <= i < |ks| && ks[i] == k;
      assert s[i] in s;
    }
    forall x | x in s ensures key(x) in ks {
      var i :| 0 <= i < |s| && s[i] == x;
      assert ks[i] == key(x);
    }
  }

  /** What a count by a key that never takes the value `absent` holds: every
      element's key is counted, `absent` is not, and the counts add up to the
      number of elements. */
  lemma CountedKeys<T(!new), K(!new)>(s: seq<T>, key: T -> K, absent: K)
    requires forall x :: key(x) != absent
    ensures forall x :: x in s ==> key(x) in Occurrences(Project(s, key))
    ensures absent !in Occurrences(Project(s, key))
    ensures Total(Occurrences(Project(s, key)), Distinct(Project(s, key))) == |s|
  {
    OccurrencesKeys(s, key);
    OccurrencesTotal(Project(s, key));
  }

  /** The accumulating `reduce`/`forEach` that counts records per key. */
  method CountBy<T, K(==)>(s: seq<T>, key: T -> K) returns (counts: map<K, nat>)
    ensures counts == Occurrences(Project(s, key))
  {
    counts := map[];
    for i := 0 to |s|
      invariant counts == Occurrences(Project(s[..i], key))
    {
      var k := key(s[i]);
      ghost var ks := Project(s[..i], key);
      assert s[..i + 1] == s[..i] + [s[i]];
      assert Project(s[..i + 1], key) == ks + [k];
      OccurrencesSnoc(ks, k);
      counts := counts[k := (if k in counts then counts[k] else 0) + 1];
    }
    assert s[..|s|] == s;
  }

  /** Each key occurring in `s`, mapped to the elements with that key. */
  function Grouped<T(==), K(==)>(s: seq<T>, key: T -> K): map<K, seq<T>>
  {
    map k | k in Project(s, key) :: WithKey(s, key, k)
  }

  /** The number of elements in each group. */
  function Sizes<K, T>(groups: map<K, seq<T>>): map<K, nat>
  {
    map k | k in groups :: |groups[k]|
  }

  lemma ProjectSnoc<T, K>(s: seq<T>, x: T, key: T -> K)
    ensures Project(s + [x], key) == Project(s, key) + [key(x)]
  {
    assert (s + [x])[..|s|] == s;
  }

  /** One more element extends the group of its key, creating it if needed. */
  lemma GroupedSnoc<T(!new), K(!new)>(s: seq<T>, x: T, key: T -> K)
    ensures var g, k := Grouped(s, key), key(x);
      Grouped(s + [x], key) == g[k := (if k in g then g[k] else []) + [x]]
  {
    var k := key(x);
    var g, g' := Grouped(s, key), Grouped(s + [x], key);
    var expected := g[k := (if k in g then g[k] else []) + [x]];
    ProjectSnoc(s, x, key);
    assert g'.Keys == expected.Keys;
    forall k' | k' in g' ensures g'[k'] == expected[k'] {
      WithKeySnoc(s, x, key, k');
      if k' == k && k !in g {
        WithKeyIsGroup(s, key, k);
      }
    }
  }

  /** The accumulating `reduce` that pushes each record onto the list of its
      key, creating the list on first use. */
  method GroupBy<T(==,!new), K(==,!new)>(s: seq<T>, key: T -> K) returns (groups: map<K, seq<T>>)
    ensures groups == Grouped(s, key)
  {
    groups := map[];
    for i := 0 to |s|
      invariant groups == Grouped(s[..i], key)
    {
      var x := s[i];
      var k := key(x);
      assert s[..i + 1] == s[..i] + [x];
      GroupedSnoc(s[..i], x, key);
      if k !in groups {
        groups := groups[k := []];
      }
      groups := groups[k := groups[k] + [x]];
    }
    assert s[..|s|] == s;
  }

  /** Grouping partitions `s`: every element lies in the group of its own key
      and in no other, with its full multiplicity; groups keep the order of
      `s` and none is empty. */
  lemma GroupedIsPartition<T(!new), K(!new)>(s: seq<T>, key: T -> K)
    ensures forall x :: x in s ==> key(x) in Grouped(s, key)
    ensures forall k :: k in Grouped(s, key) ==>
      |Grouped(s, key)[k]| > 0 && IsSubsequence(Grouped(s, key)[k], s) &&
      forall x :: multiset(Grouped(s, key)[k])[x] == if key(x) == k then multiset(s)[x] else 0
  {
    var g := Grouped(s, key);
    var ks := Project(s, key);
    forall x | x in s ensures key(x) in g {
      var i :| 0 <= i < |s| && s[i] == x;
      assert ks[i] == key(x);
    }
    forall k | k in g ensures |g[k]| > 0 && IsSubsequence(g[k], s) &&
      forall x :: multiset(g[k])[x] == if key(x) == k then multiset(s)[x] else 0
    {
      WithKeyIsGroup(s, key, k);
    }
  }

  /** The group sizes are the key counts... */
  lemma GroupSizesAreCounts<T(!new), K(!new)>(s: seq<T>, key: T -> K)
    ensures Sizes(Grouped(s, key)) == Occurrences(Project(s, key))
  {
    var g := Grouped(s, key);
    var ks := Project(s, key);
    var sz, oc := Sizes(g), Occurrences(ks);
    assert sz.Keys == g.Keys == oc.Keys;
    forall k | k in sz ensures sz[k] == oc[k] {
      WithKeyIsGroup(s, key, k);
    }
  }

  /** ...so they add up to |s|. */
  lemma GroupSizesTotal<T(!new), K(!new)>(s: seq<T>, key: T -> K)
    ensures Total(Sizes(Grouped(s, key)), Distinct(Project(s, key))) == |s|
  {
    GroupSizesAreCounts(s, key);
    OccurrencesTotal(Project(s, key));
  }
}
