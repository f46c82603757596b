/** Ordering by a score, largest first, keeping the input order among equal
    scores: Python's `sorted(..., key=..., reverse=True)`. */
module StableSort {
  import opened Lists

  /** Non-increasing scores. */
  predicate SortedDesc<T>(s: seq<T>, key: T -> real)
  {
    forall i, j :: 0 <= i < j < |s| ==> key(s[i]) >= key(s[j])
  }

  /** The elements of `s` whose score is exactly `v`, in their order in `s`. */
  function WithKey<T>(s: seq<T>, key: T -> real, v: real): (r: seq<T>)
    ensures |r| <= |s|
  {
    if s == [] then []
    else if key(s[0]) == v then [s[0]] + WithKey(s[1..], key, v)
    else WithKey(s[1..], key, v)
  }

  /** Equal scores keep their relative order: the defining property of a stable sort. */
  ghost predicate SameTies<T>(r: seq<T>, s: seq<T>, key: T -> real)
  {
    forall v: real :: WithKey(r, key, v) == WithKey(s, key, v)
  }

  lemma {:induction false} WithKeyConcat<T>(a: seq<T>, b: seq<T>, key: T -> real, v: real)
    ensures WithKey(a + b, key, v) == WithKey(a, key, v) + WithKey(b, key, v)
  {
    if a == [] {
      assert a + b == b;
    } else {
      assert (a + b)[0] == a[0] && (a + b)[1..] == a[1..] + b;
      WithKeyConcat(a[1..], b, key, v);
    }
  }

  /** Every element of a list sorted largest first scores at most its head. */
  lemma HeadIsMax<T>(s: seq<T>, key: T -> real)
    requires s != [] && SortedDesc(s, key)
    ensures forall x :: x in s ==> key(x) <= key(s[0])
  {
    forall x | x in s ensures key(x) <= key(s[0]) {
      var i :| 0 <= i < |s| && s[i] == x;
      if i > 0 { assert key(s[0]) >= key(s[i]); }
    }
  }

  /** When every element of `s` scores below `v`, none of them has score `v`. */
  lemma {:induction false} WithKeyBelow<T>(s: seq<T>, key: T -> real, v: real)
    requires forall x :: x in s ==> key(x) < v
    ensures WithKey(s, key, v) == []
  {
    if s != [] {
      assert s[0] in s;
      assert forall x :: x in s[1..] ==> x in s;
      WithKeyBelow(s[1..], key, v);
    }
  }

  /** Merge of two lists sorted largest first; on equal scores the left list goes first. */
  function Merge<T>(a: seq<T>, b: seq<T>, key: T -> real): (r: seq<T>)
    decreases |a| + |b|
  {
    if a == [] then b
    else if b == [] then a
    else if key(a[0]) >= key(b[0]) then [a[0]] + Merge(a[1..], b, key)
    else [b[0]] + Merge(a, b[1..], key)
  }

  lemma {:induction false} MergeMultiset<T>(a: seq<T>, b: seq<T>, key: T -> real)
    ensures multiset(Merge(a, b, key)) == multiset(a) + multiset(b)
    decreases |a| + |b|
  {
    if a != [] && b != [] {
      if key(a[0]) >= key(b[0]) {
        var rest := Merge(a[1..], b, key);
        MergeMultiset(a[1..], b, key);
        ConsMultiset(a[0], rest);
        ConsMultiset(a[0], a[1..]);
        assert [a[0]] + a[1..] == a;
      } else {
        var rest := Merge(a, b[1..], key);
        MergeMultiset(a, b[1..], key);
        ConsMultiset(b[0], rest);
        ConsMultiset(b[0], b[1..]);
        assert [b[0]] + b[1..] == b;
      }
    }
  }

  lemma ConsMultiset<T>(x: T, s: seq<T>)
    ensures multiset([x] + s) == multiset{x} + multiset(s)
  {
  }

  lemma MultisetSplit<T>(s: seq<T>, h: nat)
    requires h <= |s|
    ensures multiset(s) == multiset(s[..h]) + multiset(s[h..])
  {
    assert s == s[..h] + s[h..];
  }

  lemma {:induction false} MergeSorted<T>(a: seq<T>, b: seq<T>, key: T -> real)
    requires SortedDesc(a, key) && SortedDesc(b, key)
    ensures SortedDesc(Merge(a, b, key), key)
    ensures Merge(a, b, key) != [] ==> (a != [] && Merge(a, b, key)[0] == a[0]) || (b != [] && Merge(a, b, key)[0] == b[0])
    decreases |a| + |b|
  {
    if a != [] && b != [] {
      var m := Merge(a, b, key);
      if key(a[0]) >= key(b[0]) {
        var rest := Merge(a[1..], b, key);
        MergeSorted(a[1..], b, key);
        assert m == [a[0]] + rest;
        if rest != [] {
          assert key(rest[0]) <= key(a[0]);
        }
      } else {
        var rest := Merge(a, b[1..], key);
        MergeSorted(a, b[1..], key);
        assert m == [b[0]] + rest;
        if rest != [] {
          assert key(rest[0]) <= key(b[0]);
        }
      }
    }
  }

  lemma {:induction false} MergeTies<T>(a: seq<T>, b: seq<T>, key: T -> real, v: real)
    requires SortedDesc(a, key) && SortedDesc(b, key)
    ensures WithKey(Merge(a, b, key), key, v) == WithKey(a, key, v) + WithKey(b, key, v)
    decreases |a| + |b|
  {
    if a == [] {
    } else if b == [] {
      assert WithKey(b, key, v) == [];
    } else if key(a[0]) >= key(b[0]) {
      MergeTies(a[1..], b, key, v);
      WithKeyConcat([a[0]], Merge(a[1..], b, key), key, v);
      WithKeyConcat([a[0]], a[1..], key, v);
      assert [a[0]] + a[1..] == a;
    } else {
      MergeTies(a, b[1..], key, v);
      WithKeyConcat([b[0]], Merge(a, b[1..], key), key, v);
      WithKeyConcat([b[0]], b[1..], key, v);
      assert [b[0]] + b[1..] == b;
      if key(b[0]) == v {
        // Everything left in `a` scores at most a[0], which is below v.
        HeadIsMax(a, key);
        WithKeyBelow(a, key, v);
      }
    }
  }

  /** Merge sort, largest score first. */
  function SortDesc<T>(s: seq<T>, key: T -> real): (r: seq<T>)
    ensures |r| == |s|
    ensures multiset(r) == multiset(s)
    ensures SortedDesc(r, key)
    decreases |s|
  {
    if |s| <= 1 then s
    else
      var h := |s| / 2;
      var a := SortDesc(s[..h], key);
      var b := SortDesc(s[h..], key);
      MergeMultiset(a, b, key);
      MergeSorted(a, b, key);
      MultisetSplit(s, h);
      Merge(a, b, key)
  }

  /** The sort is stable: among equal scores the input order survives. */
  lemma {:induction false} SortDescStable<T>(s: seq<T>, key: T -> real)
    ensures SameTies(SortDesc(s, key), s, key)
    decreases |s|
  {
    if |s| > 1 {
      var h := |s| / 2;
      var a := SortDesc(s[..h], key);
      var b := SortDesc(s[h..], key);
      SortDescStable(s[..h], key);
      SortDescStable(s[h..], key);
      assert s == s[..h] + s[h..];
      forall v: real ensures WithKey(SortDesc(s, key), key, v) == WithKey(s, key, v) {
        MergeTies(a, b, key, v);
        WithKeyConcat(s[..h], s[h..], key, v);
      }
    }
  }

  /** `sorted(xs, key=key, reverse=True)[:n]`: the `n` best, best first. */
  function TopN<T>(s: seq<T>, key: T -> real, n: nat): (r: seq<T>)
    ensures |r| == if |s| < n then |s| else n
    ensures SortedDesc(r, key)
    ensures multiset(r) <= multiset(s)
  {
    var sorted := SortDesc(s, key);
    var r := Take(sorted, n);
    MultisetSplit(sorted, |r|);
    SortedSlice(sorted, 0, |r|, key);
    assert sorted[0..|r|] == r;
    r
  }

  /** `TopN` keeps only elements it was given. */
  lemma TopNMember<T>(s: seq<T>, key: T -> real, n: nat, y: T)
    requires y in TopN(s, key, n)
    ensures y in s
  {
    assert y in multiset(TopN(s, key, n));
  }

  /** Nothing that `TopN` leaves out scores higher than anything it keeps. */
  lemma TopNKeepsTheBest<T>(s: seq<T>, key: T -> real, n: nat, x: T)
    requires x in multiset(s) - multiset(TopN(s, key, n))
    ensures forall y :: y in TopN(s, key, n) ==> key(y) >= key(x)
  {
    var sorted := SortDesc(s, key);
    var r := TopN(s, key, n);
    MultisetSplit(sorted, |r|);
    assert x in multiset(sorted[|r|..]);
    assert x in sorted[|r|..];
    var j :| |r| <= j < |sorted| && sorted[j] == x;
    forall y | y in r ensures key(y) >= key(x) {
      var i :| 0 <= i < |r| && r[i] == y;
      assert sorted[i] == y;
    }
  }

  /** Sorting a list that is already ordered largest first changes nothing. */
  lemma {:induction false} SortSortedIsIdentity<T>(s: seq<T>, key: T -> real)
    requires SortedDesc(s, key)
    ensures SortDesc(s, key) == s
    decreases |s|
  {
    if |s| > 1 {
      var h := |s| / 2;
      SortedSlice(s, 0, h, key);
      SortedSlice(s, h, |s|, key);
      assert s[0..h] == s[..h] && s[h..|s|] == s[h..];
      SortSortedIsIdentity(s[..h], key);
      SortSortedIsIdentity(s[h..], key);
      assert s[..h] + s[h..] == s;
      MergeOfOrderedHalves(s[..h], s[h..], key);
    }
  }

  lemma SortedSlice<T>(s: seq<T>, lo: nat, hi: nat, key: T -> real)
    requires lo <= hi <= |s| && SortedDesc(s, key)
    ensures SortedDesc(s[lo..hi], key)
  {
    forall i, j | 0 <= i < j < hi - lo ensures key(s[lo..hi][i]) >= key(s[lo..hi][j]) {
      assert s[lo..hi][i] == s[lo + i] && s[lo..hi][j] == s[lo + j];
    }
  }

  /** Merging a prefix with the rest of a sorted list restores the list. */
  lemma {:induction false} MergeOfOrderedHalves<T>(a: seq<T>, b: seq<T>, key: T -> real)
    requires SortedDesc(a + b, key)
    ensures Merge(a, b, key) == a + b
    decreases |a| + |b|
  {
    if a != [] && b != [] {
      assert key(a[0]) >= key(b[0]) by { assert (a + b)[0] == a[0] && (a + b)[|a|] == b[0]; }
      assert (a + b)[1..] == a[1..] + b;
      MergeOfOrderedHalves(a[1..], b, key);
    } else if a == [] {
      assert a + b == b;
    } else {
      assert a + b == a;
    }
  }
}
